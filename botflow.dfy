/**
 * The decisions `TelegramBot.handle_message` and `TelegramBot.button_callback`
 * take (ytb1.py): which text is taken for a video URL, what the bot answers
 * to a URL given what the extractor returned, how a button's callback data is
 * parsed back, and what the choice leads to given what the downloader
 * returned. The messaging SDK, yt-dlp and the file system are collaborators:
 * their answers are parameters here.
 */
module BotFlow {
  import opened Wrappers
  import opened PyText
  import opened PathNames
  import opened Catalog
  import opened QualityMenu

  // ---------------------------------------------------------------------------
  // URL acceptance (ytb1.py lines 128-134)

  /** `"youtube.com" in url or "youtu.be" in url`: a substring test, not a domain check. */
  predicate Accepts(url: string) {
    Contains(url, "youtube.com") || Contains(url, "youtu.be")
  }

  /** A URL is accepted iff one of the two markers occurs somewhere in it. */
  lemma AcceptsIff(url: string)
    ensures Accepts(url) <==> (exists i :: OccursAt(url, "youtube.com", i)) || (exists i :: OccursAt(url, "youtu.be", i))
  {
    ContainsIff(url, "youtube.com");
    ContainsIff(url, "youtu.be");
  }

  /**
   * The marker may sit anywhere, so a host that merely mentions it, or a
   * query string, is accepted too.
   */
  lemma AcceptsMarkerAnywhere(before: string, after: string)
    ensures Accepts(before + "youtube.com" + after)
    ensures Accepts(before + "youtu.be" + after)
  {
    var marker := "youtube.com";
    var u := before + marker + after;
    assert u[|before|..|before| + |marker|] == marker;
    assert OccursAt(u, marker, |before|);
    AcceptsIff(u);
    var short := "youtu.be";
    var v := before + short + after;
    assert v[|before|..|before| + |short|] == short;
    assert OccursAt(v, short, |before|);
    AcceptsIff(v);
  }

  /** The test is case-sensitive: a text without a lower-case 'y' is rejected. */
  lemma RejectsWithoutLowerY(url: string)
    requires 'y' !in url
    ensures !Accepts(url)
  {
    AcceptsIff(url);
    forall i: int
      ensures !OccursAt(url, "youtube.com", i) && !OccursAt(url, "youtu.be", i)
    {
      if 0 <= i && i + 8 <= |url| {
        assert url[i..i + 8][0] == url[i] != 'y';
        if i + 11 <= |url| {
          assert url[i..i + 11][0] == url[i];
        }
      }
    }
  }

  // ---------------------------------------------------------------------------
  // Duration text (ytb1.py line 146): str(timedelta(seconds=duration))

  function TwoDigits(n: nat): (t: string)
    requires n < 100
    ensures |t| == 2 && AllDigits(t) && DigitsValue(t) == n
  {
    var hi, lo := DigitChar(n / 10), DigitChar(n % 10);
    assert [hi, lo][..1] == [hi] && [hi][..0] == [];
    assert DigitsValue([hi]) == n / 10;
    assert DigitsValue([hi, lo]) == (n / 10) * 10 + n % 10;
    [hi, lo]
  }

  /** The "<d> day[s], " part `timedelta.__str__` puts before the clock when days are not zero. */
  function DayPrefix(days: int): string {
    if days == 0 then ""
    else IntText(days) + " day" + (if days == 1 || days == -1 then "" else "s") + ", "
  }

  /** The largest number of days a timedelta holds. */
  const MaxDays: int := 999999999

  /**
   * `str(timedelta(seconds=s))` for a whole number of seconds; `None` when
   * the days exceed the timedelta range (`OverflowError`).
   */
  function DurationText(seconds: int): Option<string> {
    var days := seconds / 86400;
    var rest := seconds % 86400;
    if days < -MaxDays || days > MaxDays then None
    else Some(DayPrefix(days) + NatText(rest / 3600) + ":" + TwoDigits(rest % 3600 / 60) + ":" + TwoDigits(rest % 60))
  }

  /**
   * A duration of `days` days and `h`:`m`:`s` reads back as those numbers:
   * the hours without padding, minutes and seconds as two digits.
   */
  lemma DurationReadsBack(days: int, h: nat, m: nat, s: nat)
    requires -MaxDays <= days <= MaxDays && h < 24 && m < 60 && s < 60
    ensures DurationText(days * 86400 + h * 3600 + m * 60 + s)
         == Some(DayPrefix(days) + NatText(h) + ":" + TwoDigits(m) + ":" + TwoDigits(s))
  {
    ClockParts(days, h, m, s);
  }

  /** The divisions `timedelta.__str__` performs recover the day count and the clock. */
  lemma ClockParts(days: int, h: nat, m: nat, s: nat)
    requires h < 24 && m < 60 && s < 60
    ensures var total := days * 86400 + h * 3600 + m * 60 + s;
      && total / 86400 == days && total % 86400 == h * 3600 + m * 60 + s
      && (h * 3600 + m * 60 + s) / 3600 == h
      && (h * 3600 + m * 60 + s) % 3600 / 60 == m
      && (h * 3600 + m * 60 + s) % 60 == s
  {
    var rest := h * 3600 + m * 60 + s;
    assert 0 <= rest < 86400;
    assert rest % 3600 == m * 60 + s;
    assert rest == (h * 60 + m) * 60 + s;
  }

  /** The text fails exactly when the day count leaves the timedelta range. */
  lemma DurationOverflow(seconds: int)
    ensures DurationText(seconds) == None <==> (seconds < -MaxDays * 86400 || seconds >= (MaxDays + 1) * 86400)
  {
  }

  // ---------------------------------------------------------------------------
  // Answering a URL (ytb1.py lines 126-191)

  /**
   * What `get_video_info` returned, reduced to what the handler reads:
   * `None` fields are keys absent from the dictionary (`info['title']` then
   * raises); `formats` is `info.get('formats', [])`.
   */
  datatype Info = Info(title: Option<string>, uploader: Option<string>, duration: Option<int>, formats: seq<Format>)

  /** The reply `handle_message` ends with. */
  datatype Reply =
    | InvalidUrl                  // "Please send a valid YouTube URL."
    | InfoUnavailable             // "Could not get video information. ..."
    | HandlerError                // an exception in the handler: "Error: ..."
    | NoFormats                   // "No downloadable formats found."
    | Menu(title: string, uploader: string, duration: string, buttons: seq<Button>)

  /** A conversation turn: the URL passed to `get_video_info`, if it was called, and the reply. */
  datatype Turn = Turn(lookedUp: Option<string>, reply: Reply)

  /** The handler reads every field it needs: the duration has a text, and title and uploader are present. */
  predicate Complete(info: Info) {
    && info.duration.Some? && DurationText(info.duration.value).Some?
    && info.title.Some? && info.uploader.Some?
  }

  /** The reply once the extractor returned `info` for `url`. */
  function Describe(info: Info, url: string): (r: Reply)
    ensures info.duration.None? ==> r == HandlerError
    ensures info.duration.Some? && DurationText(info.duration.value).None? ==> r == HandlerError
    ensures info.title.None? || info.uploader.None? ==> r == HandlerError
    ensures Complete(info) ==>
      (r == NoFormats <==> forall j :: 0 <= j < |info.formats| ==> !IsVideo(info.formats[j]))
    ensures Complete(info) ==>
      (r.Menu? <==> exists j :: 0 <= j < |info.formats| && IsVideo(info.formats[j]))
    ensures r.Menu? ==>
      && Complete(info)
      && r.title == info.title.value && r.uploader == info.uploader.value
      && Some(r.duration) == DurationText(info.duration.value)
      && r.buttons == MenuButtons(AvailableFormats(info.formats), url)
  {
    if info.duration.None? then HandlerError
    else
      match DurationText(info.duration.value)
      case None => HandlerError
      case Some(duration) =>
        if info.title.None? || info.uploader.None? then HandlerError
        else
          var ranked := AvailableFormats(info.formats);
          AvailableHeights(info.formats);
          if ranked == [] then NoFormats
          else Menu(info.title.value, info.uploader.value, duration, MenuButtons(ranked, url))
  }

  /**
   * `handle_message` on the message `text`, where `info` is what
   * `get_video_info` returns for the stripped text. A rejected text is
   * answered before the extractor is asked anything.
   */
  function Respond(text: string, info: Option<Info>): (t: Turn)
    ensures t.lookedUp.None? <==> !Accepts(Strip(text))
    ensures t.lookedUp.Some? ==> t.lookedUp.value == Strip(text)
    ensures t.lookedUp.None? ==> t.reply == InvalidUrl
    ensures t.lookedUp.Some? && info.None? ==> t.reply == InfoUnavailable
    ensures t.lookedUp.Some? && info.Some? ==> t.reply == Describe(info.value, t.lookedUp.value)
  {
    var url := Strip(text);
    if !Accepts(url) then Turn(None, InvalidUrl)
    else
      match info
      case None => Turn(Some(url), InfoUnavailable)
      case Some(i) => Turn(Some(url), Describe(i, url))
  }

  /** The handler itself, with the catalogue and keyboard built by their loops. */
  method HandleMessage(text: string, info: Option<Info>) returns (lookedUp: Option<string>, reply: Reply)
    ensures Turn(lookedUp, reply) == Respond(text, info)
  {
    var url := Strip(text);
    if !(Contains(url, "youtube.com") || Contains(url, "youtu.be")) {
      return None, InvalidUrl;
    }
    lookedUp := Some(url);
    if info.None? {
      return lookedUp, InfoUnavailable;
    }
    var i := info.value;
    if i.duration.None? {
      return lookedUp, HandlerError;
    }
    var duration := DurationText(i.duration.value);
    if duration.None? || i.title.None? || i.uploader.None? {
      return lookedUp, HandlerError;
    }
    var formats := GetAvailableFormats(i.formats);
    if |formats| == 0 {
      return lookedUp, NoFormats;
    }
    var buttons := BuildMenu(formats, url);
    reply := Menu(i.title.value, i.uploader.value, duration.value, buttons);
  }

  /**
   * A menu shows at most three heights, the highest by rank first, then the
   * audio button; every button's data names the stripped text as URL.
   */
  lemma MenuShape(text: string, info: Option<Info>)
    requires Respond(text, info).reply.Menu?
    ensures var buttons := Respond(text, info).reply.buttons;
      var ranked := AvailableFormats(info.value.formats);
      && 2 <= |buttons| <= 4
      && |buttons| == VideoButtonCount(ranked) + 1
      && buttons[|buttons| - 1] == AudioButton(Strip(text))
      && (forall k :: 0 <= k < |buttons| - 1 ==> buttons[k] == VideoButton(ranked[k], Strip(text)))
  {
  }

  /**
   * The example listing of the catalogue, for a video of 125 seconds: the
   * menu offers the 80 MB 1080p format, the 720p one and audio, in that order.
   */
  lemma ExampleMenu(text: string, title: string, uploader: string)
    requires Accepts(Strip(text))
    ensures var url := Strip(text);
      Respond(text, Some(Info(Some(title), Some(uploader), Some(125), ExampleListing))).reply
      == Menu(title, uploader, "0:02:05",
              [VideoButton(Entry(Px(1080), LargeFullHd), url), VideoButton(Entry(Px(720), Hd), url), AudioButton(url)])
  {
    ExampleDuration();
    ExampleButtons(Strip(text));
  }

  /** `str(timedelta(seconds=125))` is "0:02:05". */
  lemma ExampleDuration()
    ensures DurationText(125) == Some("0:02:05")
  {
    DurationReadsBack(0, 0, 2, 5);
    assert 0 * 86400 + 0 * 3600 + 2 * 60 + 5 == 125;
    assert DayPrefix(0) == "" && NatText(0) == "0";
    assert TwoDigits(2) == "02" && TwoDigits(5) == "05";
    assert "" + "0" + ":" + "02" + ":" + "05" == "0:02:05";
  }

  /** The keyboard for the example listing. */
  lemma ExampleButtons(url: string)
    ensures MenuButtons(AvailableFormats(ExampleListing), url)
         == [VideoButton(Entry(Px(1080), LargeFullHd), url), VideoButton(Entry(Px(720), Hd), url), AudioButton(url)]
  {
    ExampleCatalogue();
    var ranked := [Entry(Px(1080), LargeFullHd), Entry(Px(720), Hd)];
    var buttons := MenuButtons(ranked, url);
    assert |buttons| == 3;
    assert buttons[0] == VideoButton(ranked[0], url) && buttons[1] == VideoButton(ranked[1], url);
  }

  // ---------------------------------------------------------------------------
  // Parsing a button press (ytb1.py lines 201-205)

  /** The quality word and URL recovered from callback data. */
  datatype Selection = Selection(quality: string, url: string)

  /**
   * `data.split('_')`, `parts[1]` and `'_'.join(parts[2:])` for data starting
   * with "dl_"; `None` for any other data, which the bot leaves alone.
   */
  function ParseCallback(data: string): Option<Selection> {
    if !("dl_" <= data) then None
    else
      var parts := Split(data, '_');
      assert data == "dl" + ['_'] + data[3..];
      SplitAfter("dl", '_', data[3..]);
      Some(Selection(parts[1], Join(parts[2..], '_')))
  }

  /**
   * The round trip: data built from a quality without '_' and any URL, even
   * one containing '_', parses back to exactly that quality and URL.
   */
  lemma {:induction false} ParseSelectionData(quality: string, url: string)
    requires '_' !in quality
    ensures ParseCallback(SelectionData(quality, url)) == Some(Selection(quality, url))
  {
    var data := SelectionData(quality, url);
    assert data == "dl" + ['_'] + data[3..];
    SplitAfter("dl", '_', data[3..]);
    assert data[3..] == quality + ['_'] + url;
    SplitAfter(quality, '_', url);
    var parts := Split(data, '_');
    assert parts == ["dl", quality] + Split(url, '_');
    assert parts[2..] == Split(url, '_');
    JoinSplit(url, '_');
  }

  /**
   * The converse: whatever parses is the data of its selection, except that
   * "dl_<quality>" with no second '_' parses to an empty URL.
   */
  lemma {:induction false} ParseCallbackInverse(data: string)
    requires ParseCallback(data).Some?
    ensures var sel := ParseCallback(data).value;
      && '_' !in sel.quality
      && (data == SelectionData(sel.quality, sel.url) || (data == "dl_" + sel.quality && sel.url == ""))
  {
    var rest := data[3..];
    assert data == "dl" + ['_'] + rest;
    SplitAfter("dl", '_', rest);
    var pieces := Split(rest, '_');
    var sel := ParseCallback(data).value;
    assert sel.quality == pieces[0];
    assert Split(data, '_')[2..] == pieces[1..];
    JoinSplit(rest, '_');
    if |pieces| == 1 {
      assert rest == pieces[0];
    } else {
      assert rest == pieces[0] + ['_'] + Join(pieces[1..], '_');
    }
  }

  // ---------------------------------------------------------------------------
  // Dispatching the choice (ytb1.py lines 207-247)

  /** The download handed to yt-dlp. */
  datatype Download = AudioDownload(url: string) | VideoDownload(url: string, resolution: int)

  /** "audio" asks for audio; otherwise `int(quality)` must succeed, or nothing is downloaded. */
  function Requested(sel: Selection): (d: Option<Download>)
    ensures d == None <==> sel.quality != AudioQuality && ParseInt(sel.quality) == None
    ensures d.Some? ==> d.value.url == sel.url
    ensures d.Some? ==> (d.value.AudioDownload? <==> sel.quality == AudioQuality)
    ensures d.Some? && d.value.VideoDownload? ==> ParseInt(sel.quality) == Some(d.value.resolution)
  {
    if sel.quality == AudioQuality then Some(AudioDownload(sel.url))
    else
      match ParseInt(sel.quality)
      case None => None
      case Some(n) => Some(VideoDownload(sel.url, n))
  }

  /** How a button press ends. */
  datatype Outcome =
    | NotADownload                            // data without the "dl_" prefix
    | CallbackError                           // `int(quality)` raised: "Error: ..."
    | DownloadFailed                          // the downloader returned no file
    | SentAudio(path: string)
    | SentVideo(path: string, quality: string)

  /**
   * `button_callback`, where `prepared` is the file name yt-dlp reports for
   * the finished download, or `None` when the download raised, including a
   * failing rename to ".mp4", which `download_video` catches. Sending the
   * file and removing it afterwards are not part of the model.
   */
  function Callback(data: string, prepared: Option<string>): (o: Outcome)
    ensures o == NotADownload <==> ParseCallback(data) == None
    ensures o == CallbackError <==> ParseCallback(data).Some? && Requested(ParseCallback(data).value) == None
    ensures o == DownloadFailed <==>
      ParseCallback(data).Some? && Requested(ParseCallback(data).value).Some? && prepared.None?
    ensures prepared.None? ==> !o.SentAudio? && !o.SentVideo?
    ensures ParseCallback(data).Some? && Requested(ParseCallback(data).value).Some? && prepared.Some? ==>
      if ParseCallback(data).value.quality == AudioQuality
      then o == SentAudio(AudioFileName(prepared.value))
      else o == SentVideo(VideoFileName(prepared.value), ParseCallback(data).value.quality)
    ensures o.SentAudio? ==> EndsWith(o.path, ".mp3")
    ensures o.SentVideo? ==> EndsWith(o.path, ".mp4") && ParseInt(o.quality).Some?
  {
    match ParseCallback(data)
    case None => NotADownload
    case Some(sel) =>
      match Requested(sel)
      case None => CallbackError
      case Some(d) =>
        match prepared
        case None => DownloadFailed
        case Some(name) =>
          match d
          case AudioDownload(_) => SentAudio(AudioFileName(name))
          case VideoDownload(_, _) => SentVideo(VideoFileName(name), sel.quality)
  }

  /**
   * A quality that is neither "audio" nor an int literal ends in the error
   * reply whatever the downloader would have returned: no download happens.
   */
  lemma NonNumericQualityFails(quality: string, url: string, prepared: Option<string>)
    requires '_' !in quality && quality != AudioQuality && ParseInt(quality) == None
    ensures Requested(Selection(quality, url)) == None
    ensures Callback(SelectionData(quality, url), prepared) == CallbackError
  {
    ParseSelectionData(quality, url);
  }

  /** A stripped text that starts with neither a digit nor a sign is not an int literal. */
  lemma NotNumber(t: string)
    requires |t| >= 1 && !IsIntSpace(t[0]) && !IsIntSpace(t[|t| - 1])
    requires !IsDigit(t[0]) && t[0] != '-' && t[0] != '+'
    ensures ParseInt(t) == None
  {
    IntStripUnchanged(t);
  }

  /** The download a height's button asks for: its pixel count, or none when it has no number. */
  function HeightRequest(h: Height, url: string): Option<Download> {
    match h
    case Px(n) => Some(VideoDownload(url, n))
    case _ => None
  }

  /** The audio button parses back to the URL and asks for audio. */
  lemma AudioButtonRequest(url: string)
    ensures ParseCallback(AudioButton(url).data) == Some(Selection(AudioQuality, url))
    ensures Requested(Selection(AudioQuality, url)) == Some(AudioDownload(url))
  {
    assert '_' !in AudioQuality;
    ParseSelectionData(AudioQuality, url);
  }

  /** A height's button parses back to its height text and the URL and asks for that height. */
  lemma VideoButtonRequest(e: Entry, url: string)
    ensures ParseCallback(VideoButton(e, url).data) == Some(Selection(HeightText(e.height), url))
    ensures Requested(Selection(HeightText(e.height), url)) == HeightRequest(e.height, url)
  {
    var h := e.height;
    HeightTextIsQuality(h);
    ParseSelectionData(HeightText(h), url);
    match h
    case Px(n) => ParseIntText(n);
    case Absent => NotNumber(HeightText(h));
    case Null => NotNumber(HeightText(h));
  }

  /** What pressing button `k` of a menu for `ranked` and `url` asks the downloader for. */
  lemma MenuRequests(ranked: seq<Entry>, url: string, k: nat)
    requires k < |MenuButtons(ranked, url)|
    ensures var b := MenuButtons(ranked, url)[k];
      ParseCallback(b.data).Some? && ParseCallback(b.data).value.url == url
    ensures var buttons := MenuButtons(ranked, url);
      k == |buttons| - 1 ==> Requested(ParseCallback(buttons[k].data).value) == Some(AudioDownload(url))
    ensures var buttons := MenuButtons(ranked, url);
      k < |buttons| - 1 ==> ParseCallback(buttons[k].data) == Some(Selection(HeightText(ranked[k].height), url))
    ensures var buttons := MenuButtons(ranked, url);
      k < |buttons| - 1 ==> Requested(ParseCallback(buttons[k].data).value) == HeightRequest(ranked[k].height, url)
  {
    var buttons := MenuButtons(ranked, url);
    if k == |buttons| - 1 {
      AudioButtonRequest(url);
    } else {
      VideoButtonRequest(ranked[k], url);
    }
  }

  /**
   * End to end: every button of the menu the bot shows for `text` leads
   * back to the stripped text as URL; the last one downloads audio, the
   * others download their height, or fail when it is not a number.
   */
  lemma MenuLeadsBack(text: string, info: Option<Info>, k: nat)
    requires Respond(text, info).reply.Menu?
    requires k < |Respond(text, info).reply.buttons|
    ensures var buttons := Respond(text, info).reply.buttons;
      var ranked := AvailableFormats(info.value.formats);
      var sel := ParseCallback(buttons[k].data);
      && sel.Some? && sel.value.url == Strip(text)
      && (k == |buttons| - 1 ==> Requested(sel.value) == Some(AudioDownload(Strip(text))))
      && (k < |buttons| - 1 && ranked[k].height.Px? ==>
            Requested(sel.value) == Some(VideoDownload(Strip(text), ranked[k].height.px)))
      && (k < |buttons| - 1 && !ranked[k].height.Px? ==> Requested(sel.value) == None)
  {
    var ranked := AvailableFormats(info.value.formats);
    var url := Strip(text);
    MenuRequests(ranked, url, k);
  }

  /**
   * End to end with the downloader's answer: once the download of a shown
   * button's request reports the file `name`, the audio button sends the
   * ".mp3" name and a numeric height's button sends the ".mp4" name with its
   * height text; a failed download sends nothing.
   */
  lemma MenuPressSends(text: string, info: Option<Info>, k: nat, prepared: Option<string>)
    requires Respond(text, info).reply.Menu?
    requires k < |Respond(text, info).reply.buttons|
    ensures var buttons := Respond(text, info).reply.buttons;
      var ranked := AvailableFormats(info.value.formats);
      var o := Callback(buttons[k].data, prepared);
      && (prepared.None? && (k == |buttons| - 1 || ranked[k].height.Px?) ==> o == DownloadFailed)
      && (prepared.Some? && k == |buttons| - 1 ==> o == SentAudio(AudioFileName(prepared.value)))
      && (prepared.Some? && k < |buttons| - 1 && ranked[k].height.Px? ==>
            o == SentVideo(VideoFileName(prepared.value), HeightText(ranked[k].height)))
      && (k < |buttons| - 1 && !ranked[k].height.Px? ==> o == CallbackError)
  {
    var ranked := AvailableFormats(info.value.formats);
    MenuLeadsBack(text, info, k);
    MenuRequests(ranked, Strip(text), k);
  }

  /**
   * For an accepted text whose information has every field the handler
   * reads, the bot shows a menu exactly when some format is a video format,
   * and says no formats were found otherwise.
   */
  lemma MenuIffVideo(text: string, info: Info)
    requires Accepts(Strip(text)) && Complete(info)
    ensures var reply := Respond(text, Some(info)).reply;
      && (reply.Menu? <==> exists j :: 0 <= j < |info.formats| && IsVideo(info.formats[j]))
      && (!reply.Menu? <==> reply == NoFormats)
  {
  }
}
