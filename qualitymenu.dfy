/**
 * The quality-selection keyboard `TelegramBot.handle_message` builds
 * (ytb1.py): one button per height for the first three entries of the ranked
 * catalogue, then one audio-only button, each carrying a callback string
 * `dl_<quality>_<url>`.
 */
module QualityMenu {
  import opened Wrappers
  import opened PyText
  import opened Catalog

  /**
   * An inline keyboard button: the caption before the size note, the file
   * size the note shows (if any), and the callback data.
   */
  datatype Button = Button(caption: string, sizeNote: Option<nat>, data: string)

  /** `str(res)` for a catalogue key. */
  function HeightText(h: Height): string {
    match h
    case Px(n) => IntText(n)
    case Absent => "unknown"
    case Null => "None"
  }

  /** The quality word of the audio-only button. */
  const AudioQuality: string := "audio"

  const AudioCaption: string := "\U{1F3B5} Audio Only (MP3)"

  /** The callback data `f"dl_{quality}_{url}"`. */
  function SelectionData(quality: string, url: string): string {
    "dl_" + quality + "_" + url
  }

  /** The size shown beside a height: only when `fmt.get('filesize')` is truthy. */
  function SizeNote(f: Format): (note: Option<nat>)
    ensures note == None <==> (f.filesize == None || f.filesize == Some(0))
    ensures note != None ==> note == f.filesize
  {
    match f.filesize
    case Some(n) => if n != 0 then Some(n) else None
    case None => None
  }

  function VideoButton(e: Entry, url: string): Button {
    Button(HeightText(e.height) + "p", SizeNote(e.format), SelectionData(HeightText(e.height), url))
  }

  function AudioButton(url: string): Button {
    Button(AudioCaption, None, SelectionData(AudioQuality, url))
  }

  /**
   * The full label of a button. How a byte count is printed in megabytes
   * (`round(size / (1024 * 1024), 1)`) is a floating-point rendering given
   * as `megabytes`.
   */
  function Label(b: Button, megabytes: nat -> string): string {
    match b.sizeNote
    case None => b.caption
    case Some(n) => b.caption + " (" + megabytes(n) + "MB)"
  }

  /** A format without a (truthy) file size is labelled "<height>p" and nothing more. */
  lemma LabelWithoutSize(e: Entry, url: string, megabytes: nat -> string)
    requires e.format.filesize == None || e.format.filesize == Some(0)
    ensures Label(VideoButton(e, url), megabytes) == HeightText(e.height) + "p"
  {
  }

  /** `min(3, len(formats))`: how many video buttons the menu has. */
  function VideoButtonCount(entries: seq<Entry>): (n: nat)
    ensures n <= 3 && n <= |entries|
    ensures n == 3 || n == |entries|
  {
    if |entries| < 3 then |entries| else 3
  }

  /**
   * The keyboard: a video button for each of the first three entries, in
   * catalogue order, and an audio button last, whether or not the catalogue
   * has any audio stream.
   */
  function MenuButtons(entries: seq<Entry>, url: string): (buttons: seq<Button>)
    ensures |buttons| == VideoButtonCount(entries) + 1 && |buttons| <= 4
    ensures forall k :: 0 <= k < |buttons| - 1 ==> buttons[k] == VideoButton(entries[k], url)
    ensures buttons[|buttons| - 1] == AudioButton(url)
  {
    var n := VideoButtonCount(entries);
    seq(n, k requires 0 <= k < n => VideoButton(entries[k], url)) + [AudioButton(url)]
  }

  /** The button-building loop of `handle_message`. */
  method BuildMenu(entries: seq<Entry>, url: string) returns (buttons: seq<Button>)
    ensures buttons == MenuButtons(entries, url)
  {
    buttons := [];
    var top := entries[..VideoButtonCount(entries)];
    for i := 0 to |top|
      invariant |buttons| == i
      invariant forall k :: 0 <= k < i ==> buttons[k] == VideoButton(entries[k], url)
    {
      var e := top[i];
      var fileSize := e.format.filesize;
      var note := if fileSize.Some? && fileSize.value != 0 then Some(fileSize.value) else None;
      var res := HeightText(e.height);
      buttons := buttons + [Button(res + "p", note, "dl_" + res + "_" + url)];
    }
    buttons := buttons + [Button(AudioCaption, None, "dl_audio_" + url)];
    assert forall k :: 0 <= k < |buttons| ==> buttons[k] == MenuButtons(entries, url)[k];
  }

  /** No height's text contains '_' or reads "audio". */
  lemma HeightTextIsQuality(h: Height)
    ensures '_' !in HeightText(h)
    ensures HeightText(h) != AudioQuality
  {
    if h.Px? {
      IntTextChars(h.px);
      var t := HeightText(h);
      assert !IsDigit('a') && !IsDigit('_');
      assert |t| >= 1 && t[0] != 'a' && AudioQuality[0] == 'a';
    }
  }
}
