/**
 * File-name arithmetic of the download handlers: POSIX `os.path.splitext` and
 * the two rules that give a finished download its final name (ytb1.py,
 * `TelegramBot.download_video` and `TelegramBot.download_audio`).
 */
module PathNames {

  /** `s.rfind(c)` for one character: the last index holding `c`, or -1. */
  function LastIndexOf(s: string, c: char): (i: int)
    ensures -1 <= i < |s|
    ensures i >= 0 ==> s[i] == c
    ensures forall k :: i < k < |s| ==> s[k] != c
  {
    if s == [] then -1
    else if s[|s| - 1] == c then |s| - 1
    else LastIndexOf(s[..|s| - 1], c)
  }

  /** The last index of `c` is the only index that holds `c` with no `c` after it. */
  lemma LastIndexOfUnique(s: string, c: char, i: int)
    requires -1 <= i < |s|
    requires i >= 0 ==> s[i] == c
    requires forall k :: i < k < |s| ==> s[k] != c
    ensures LastIndexOf(s, c) == i
  {
  }

  /** Cutting a string after the last `c` keeps that `c` the last one. */
  lemma LastIndexOfPrefix(s: string, c: char, n: int)
    requires LastIndexOf(s, c) < n <= |s|
    ensures LastIndexOf(s[..n], c) == LastIndexOf(s, c)
  {
    var i := LastIndexOf(s, c);
    forall k | i < k < n
      ensures s[..n][k] != c
    {
      assert s[..n][k] == s[k];
    }
    LastIndexOfUnique(s[..n], c, i);
  }

  predicate AllDots(s: string) {
    forall k :: 0 <= k < |s| ==> s[k] == '.'
  }

  /** The part of a path after its last '/'. */
  function FinalComponent(p: string): (r: string)
    ensures '/' !in r
  {
    p[LastIndexOf(p, '/') + 1..]
  }

  /**
   * POSIX `os.path.splitext(p)`: splits at the last '.' of the final path
   * component, unless everything before that dot in the component is dots
   * (so ".bashrc" and "..." have no extension).
   */
  function Splitext(p: string): (r: (string, string))
    ensures r.0 + r.1 == p
  {
    var sepIndex := LastIndexOf(p, '/');
    var dotIndex := LastIndexOf(p, '.');
    if dotIndex > sepIndex && !AllDots(p[sepIndex + 1..dotIndex]) then
      (p[..dotIndex], p[dotIndex..])
    else
      (p, "")
  }

  /**
   * What splitext promises: the extension is empty or is a '.' followed by
   * neither '.' nor '/', and a non-empty extension leaves a stem whose final
   * component has a character other than '.'.
   */
  lemma SplitextShape(p: string)
    ensures var (root, ext) := Splitext(p);
      && (ext == [] || (ext[0] == '.' && '.' !in ext[1..] && '/' !in ext))
      && (ext != [] ==> !AllDots(FinalComponent(root)))
  {
    var sepIndex := LastIndexOf(p, '/');
    var dotIndex := LastIndexOf(p, '.');
    if dotIndex > sepIndex && !AllDots(p[sepIndex + 1..dotIndex]) {
      LastIndexOfPrefix(p, '/', dotIndex);
      assert FinalComponent(p[..dotIndex]) == p[sepIndex + 1..dotIndex];
    }
  }

  predicate EndsWith(s: string, suffix: string) {
    |suffix| <= |s| && s[|s| - |suffix|..] == suffix
  }

  /**
   * The name `download_video` returns for what yt-dlp reports: kept when it
   * already ends in ".mp4", otherwise its extension is replaced by ".mp4".
   */
  function VideoFileName(prepared: string): (name: string)
    ensures EndsWith(name, ".mp4")
    ensures EndsWith(prepared, ".mp4") ==> name == prepared
  {
    if EndsWith(prepared, ".mp4") then prepared else Splitext(prepared).0 + ".mp4"
  }

  /** The name `download_audio` returns: the splitext stem of what yt-dlp reports, plus ".mp3". */
  function AudioFileName(prepared: string): (name: string)
    ensures EndsWith(name, ".mp3")
  {
    Splitext(prepared).0 + ".mp3"
  }

  /** A path whose final component has a character other than '.' keeps that property in its stem. */
  lemma StemKeepsName(p: string)
    requires !AllDots(FinalComponent(p))
    ensures !AllDots(FinalComponent(Splitext(p).0))
  {
    SplitextShape(p);
  }

  /** Appending an extension leaves the last '/' where it was. */
  lemma LastSepAfterAppend(stem: string, ext: string)
    requires '/' !in ext
    ensures LastIndexOf(stem + ext, '/') == LastIndexOf(stem, '/')
  {
    var p := stem + ext;
    var sepIndex := LastIndexOf(stem, '/');
    forall k | sepIndex < k < |p|
      ensures p[k] != '/'
    {
      if k >= |stem| {
        assert p[k] == ext[k - |stem|];
      }
    }
    LastIndexOfUnique(p, '/', sepIndex);
  }

  /** Appending an extension makes its leading '.' the last one. */
  lemma LastDotAfterAppend(stem: string, ext: string)
    requires |ext| >= 1 && ext[0] == '.' && '.' !in ext[1..]
    ensures LastIndexOf(stem + ext, '.') == |stem|
  {
    var p := stem + ext;
    forall k | |stem| < k < |p|
      ensures p[k] != '.'
    {
      assert p[k] == ext[1..][k - |stem| - 1];
    }
    LastIndexOfUnique(p, '.', |stem|);
  }

  /**
   * Appending an extension to a stem whose final component is not all dots
   * gives a path that splitext splits back into that stem and extension.
   */
  lemma SplitextAppend(stem: string, ext: string)
    requires !AllDots(FinalComponent(stem))
    requires |ext| >= 1 && ext[0] == '.' && '.' !in ext[1..] && '/' !in ext
    ensures Splitext(stem + ext) == (stem, ext)
  {
    var p := stem + ext;
    LastSepAfterAppend(stem, ext);
    LastDotAfterAppend(stem, ext);
    assert p[LastIndexOf(stem, '/') + 1..|stem|] == FinalComponent(stem);
    assert p[..|stem|] == stem && p[|stem|..] == ext;
  }

  /** The audio name keeps the stem of the reported name and carries the extension ".mp3". */
  lemma AudioNameKeepsStem(prepared: string)
    requires !AllDots(FinalComponent(prepared))
    ensures Splitext(AudioFileName(prepared)) == (Splitext(prepared).0, ".mp3")
  {
    StemKeepsName(prepared);
    SplitextAppend(Splitext(prepared).0, ".mp3");
  }

  /** Normalising an audio name twice changes nothing more. */
  lemma AudioNameIdempotent(prepared: string)
    requires !AllDots(FinalComponent(prepared))
    ensures AudioFileName(AudioFileName(prepared)) == AudioFileName(prepared)
  {
    AudioNameKeepsStem(prepared);
  }

  /** A path whose final component is all dots (or empty) has no extension. */
  lemma SplitextAllDots(p: string)
    requires AllDots(FinalComponent(p))
    ensures Splitext(p) == (p, "")
  {
    var sepIndex := LastIndexOf(p, '/');
    var dotIndex := LastIndexOf(p, '.');
    if dotIndex > sepIndex {
      var name := FinalComponent(p);
      AllDotsPrefix(name, dotIndex - sepIndex - 1);
      assert p[sepIndex + 1..dotIndex] == name[..dotIndex - sepIndex - 1];
    }
    NoExtension(p);
  }

  /** Splitext finds no extension when the last dot is not preceded by a name character in its component. */
  lemma NoExtension(p: string)
    requires var sepIndex := LastIndexOf(p, '/'); var dotIndex := LastIndexOf(p, '.');
      dotIndex <= sepIndex || AllDots(p[sepIndex + 1..dotIndex])
    ensures Splitext(p) == (p, "")
  {
  }

  lemma AllDotsPrefix(s: string, n: int)
    requires AllDots(s) && 0 <= n <= |s|
    ensures AllDots(s[..n])
  {
    forall k | 0 <= k < n
      ensures s[..n][k] == '.'
    {
      assert s[..n][k] == s[k];
    }
  }

  /**
   * An extension appended to a final component of dots only is not split
   * off again: it becomes part of the stem.
   */
  lemma SplitextDotsThenExt(p: string, ext: string)
    requires AllDots(FinalComponent(p))
    requires |ext| >= 1 && ext[0] == '.' && '.' !in ext[1..] && '/' !in ext
    ensures Splitext(p + ext) == (p + ext, "")
  {
    var q := p + ext;
    LastSepAfterAppend(p, ext);
    LastDotAfterAppend(p, ext);
    assert q[LastIndexOf(p, '/') + 1..|p|] == FinalComponent(p);
  }

  /**
   * Without a name character in the final component the audio rule is not
   * idempotent: such a name (for example "" or "dir/.") gains ".mp3", and
   * normalising again gains a second ".mp3".
   */
  lemma AudioNameNotIdempotentOnBareName(p: string)
    requires AllDots(FinalComponent(p))
    ensures AudioFileName(p) == p + ".mp3"
    ensures AudioFileName(AudioFileName(p)) == p + ".mp3" + ".mp3"
    ensures AudioFileName(AudioFileName(p)) != AudioFileName(p)
  {
    SplitextAllDots(p);
    SplitextDotsThenExt(p, ".mp3");
    assert |AudioFileName(AudioFileName(p))| == |AudioFileName(p)| + 4;
  }

  /** A video name that is rewritten keeps the stem of the reported name. */
  lemma VideoNameKeepsStem(prepared: string)
    requires !AllDots(FinalComponent(prepared))
    requires !EndsWith(prepared, ".mp4")
    ensures Splitext(VideoFileName(prepared)) == (Splitext(prepared).0, ".mp4")
  {
    StemKeepsName(prepared);
    SplitextAppend(Splitext(prepared).0, ".mp4");
  }

  /** Normalising a video name twice changes nothing more. */
  lemma VideoNameIdempotent(prepared: string)
    ensures VideoFileName(VideoFileName(prepared)) == VideoFileName(prepared)
  {
  }
}
