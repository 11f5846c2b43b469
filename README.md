# Decision logic of a Telegram YouTube downloader bot

`ytb1.py` is a Telegram bot that receives a YouTube link and offers the video
for download. It answers with the video's title, channel and duration. Below
that it shows a keyboard with up to three video qualities and one audio-only
option. A press on a button downloads that quality with yt-dlp and sends the
file back to the chat.

This project models the decisions the bot takes between those I/O calls. The
messaging SDK, yt-dlp and the file system are collaborators, and their
answers are parameters of the model.

- **Catalog** models `YouTubeDownloader.get_available_formats`.
  - The loop is `Catalog.ReduceFormats`, which keeps one video format per
    height. The dictionary it fills is a map plus the order of first
    insertion, since a Python dict keeps that order.
  - The ranking is `Catalog.SortDesc`, a stable sort with the largest
    height first. A height that is not an integer ranks as 0.
  - `Catalog.GetAvailableFormats` chains the two. `Catalog.AvailableFormats`
    is the function that specifies it.
- **QualityMenu** models the keyboard loop of `handle_message`:
  `QualityMenu.BuildMenu`, specified by `QualityMenu.MenuButtons`.
- **BotFlow** models the rest of the two handlers:
  - `BotFlow.Accepts` is the URL test.
  - `BotFlow.Respond` and `BotFlow.HandleMessage` model `handle_message`
    up to the final HTML reply; the replies are the invalid-URL text, the
    could-not-get-info text, the error text, the no-formats text and the
    menu.
  - `BotFlow.DurationText` is `str(timedelta(seconds=...))`.
  - `BotFlow.ParseCallback` parses the button data back.
  - `BotFlow.Requested` and `BotFlow.Callback` are the dispatch in
    `button_callback`.
- **PathNames** models POSIX `os.path.splitext`, plus the two rules that
  name a finished download `.mp4` or `.mp3`.
- **PyText** models the Python string primitives the code relies on:
  - `str.strip()` over the full `str.isspace()` set;
  - `in` on strings;
  - `split('_')` and `'_'.join`;
  - `str(int)`;
  - `int(str)`: surrounding whitespace, an optional sign, and digit groups
    separated by single underscores. The whitespace `int()` skips is the
    `str.isspace()` set without the separators U+001C to U+001F, which
    `strip()` removes but `int()` rejects.

A format's height may be a number, missing (`f.get('height', 'unknown')`
yields `'unknown'`) or `None`. These are three distinct dictionary keys, so
they are three constructors of `Catalog.Height`. A missing `vcodec` gives
`None`, which differs from `'none'`, so such a format counts as video. A
missing or zero `filesize` counts as size 0.

The URL test is a plain substring test, as the code writes it. It does not
match a domain pattern. `BotFlow.AcceptsMarkerAnywhere` proves that any text
containing `youtube.com` or `youtu.be` is accepted, wherever the marker
stands. `BotFlow.RejectsWithoutLowerY` proves the test is case-sensitive.

Two consequences of the code are proved here rather than claimed:

- A format whose height is missing or `None` can still get a button, when
  it ranks among the first three (such a height ranks as 0), captioned
  `unknownp` or `Nonep`, plus its size note when it has a size. Its callback quality is not an `int` literal, so
  pressing it always ends in the error reply. `BotFlow.MenuLeadsBack` and
  `BotFlow.NonNumericQualityFails` prove this.
- The audio rule `splitext(name)[0] + ".mp3"` is idempotent only when the
  final path component has a character other than '.'. A name such as `""`
  or `"dir/."` gains `".mp3"`, which splitext does not split off again, so a
  second normalisation gains another `".mp3"`
  (`PathNames.AudioNameNotIdempotentOnBareName`).

## Model

| member | source | states |
|---|---|---|
| PyText.Strip | ytb1.py:128 | the stripped text is empty or starts and ends with a non-whitespace character (`str.isspace`) |
| PyText.StripSlice | ytb1.py:128 | the stripped text is the slice of the message after its leading whitespace, and only whitespace follows it |
| PyText.StripIdempotent | ytb1.py:128 | stripping twice is stripping once |
| PyText.TrimStart | ytb1.py:128 | drops leading whitespace of the given set (that of `str.strip()` or that of `int()`): what is dropped is all whitespace and what is left starts with a non-whitespace character |
| PyText.TrimEnd | ytb1.py:128 | drops trailing whitespace of the given set: what is dropped is all whitespace and what is left ends with a non-whitespace character |
| PyText.Contains | ytb1.py:132 | `pat in s` (no ensures; `PyText.ContainsIff` characterises it) |
| PyText.ContainsIff | ytb1.py:132 | `pat in s` holds exactly when `pat` occurs at some position of `s` |
| PyText.JoinSplit | ytb1.py:203-205 | joining the pieces of `split('_')` with '_' gives the string back |
| PyText.SplitAfter | ytb1.py:203-205 | splitting `a + '_' + b`, where `a` has no '_', gives `a` followed by the pieces of `b` |
| PyText.SplitJoin | ytb1.py:203-205 | splitting a '_'-join of pieces without '_' gives the pieces back |
| PyText.Split | ytb1.py:203 | `s.split(sep)`: at least one piece, and no piece contains the separator |
| PyText.Join | ytb1.py:205 | `sep.join(parts)` (no ensures; `PyText.JoinSplit` and `PyText.SplitJoin` tie it to `Split`) |
| PyText.ParseIntText | ytb1.py:214 | `int(str(n)) == n`, so a numeric height written into a button reads back as that height |
| PyText.IntText | ytb1.py:169 | `str(n)` for an int (no ensures; `PyText.IntTextChars`, `PyText.NatTextNoLeadingZero` and `PyText.ParseIntText` constrain it) |
| PyText.NatTextNoLeadingZero | ytb1.py:169 | the decimal text of a positive number does not start with '0' |
| PyText.ParseInt | ytb1.py:214 | `int(q)`, none where it raises (no ensures; `PyText.ParseIntText`, `PyText.SeparatorNotSkipped` and `BotFlow.NotNumber` constrain it) |
| PyText.IntStrip | ytb1.py:214 | the text `int()` reads has at neither end a character `int()` skips: `str.isspace()` whitespace other than U+001C to U+001F |
| PyText.SeparatorNotSkipped | ytb1.py:214 | a text starting with one of U+001C to U+001F is not an `int` literal, although `str.isspace()` holds for them |
| PyText.IntTextChars | ytb1.py:169 | `str(n)` holds only digits and a leading minus sign |
| Catalog.FirstIndex | ytb1.py:38-45 | the first position holding a video format of a given height |
| Catalog.IsVideo | ytb1.py:39 | `f.get('vcodec') != 'none'`, so a missing codec counts as video (no ensures) |
| Catalog.Size | ytb1.py:41-42 | `filesize` or 0 when it is missing (no ensures) |
| Catalog.RankKey | ytb1.py:50 | the sort key: the height when it is an int, 0 otherwise (no ensures) |
| Catalog.Step | ytb1.py:39-45 | one iteration of the loop (no ensures; `Catalog.ReduceFormats` is proved against it) |
| Catalog.Reduce | ytb1.py:37-45 | the dictionary after the loop (no ensures; the `Catalog.Reduce*` lemmas characterise it) |
| Catalog.ReduceFormats | ytb1.py:37-45 | the loop computes exactly the specified dictionary, keys in insertion order |
| Catalog.ReduceKeys | ytb1.py:37-45 | the dictionary's keys are exactly the heights of the video formats, with no repeats; order and map hold the same keys |
| Catalog.ReduceLargest | ytb1.py:39-45 | each kept format is a video format of the listing under its own height, and no video format of that height is larger |
| Catalog.ReduceFirstLargest | ytb1.py:44-45 | ties keep the first: a format that is larger than every earlier and no smaller than every later format of its height is the one kept |
| Catalog.FirstLargestOfPrefix | ytb1.py:44-45 | dropping the last format keeps an earlier first-of-the-largest format so |
| Catalog.EarlierFirstLargestKept | ytb1.py:44-45 | a kept first-of-the-largest format is not replaced by a later format that is no larger |
| Catalog.LastFirstLargestKept | ytb1.py:44-45 | a last format that is strictly larger than every earlier one of its height replaces the kept one |
| Catalog.FirstIndexOfPrefix | ytb1.py:38-45 | a later format does not move the first occurrence of a height seen before it |
| Catalog.ReduceFirstSeen | ytb1.py:44-45 | the key order is the order in which the heights first occur in the listing |
| Catalog.SortDesc | ytb1.py:48-52 | the ranking is a permutation of the keys |
| Catalog.Insert | ytb1.py:48-52 | inserting adds exactly the one element |
| Catalog.InsertSorted | ytb1.py:48-52 | inserting into a descending sequence keeps it descending |
| Catalog.SortDescSorted | ytb1.py:48-52 | the ranking is descending by key: the height, 0 for a non-integer height |
| Catalog.InsertStable | ytb1.py:48-52 | inserting an element earlier than all others keeps equal-key elements in their original order |
| Catalog.InsertStableHead | ytb1.py:48-52 | the element the insertion passes over ranks before every equal-key element behind it |
| Catalog.SortDescStable | ytb1.py:48-52 | elements with equal keys keep their input order (`sorted` is stable) |
| Catalog.SortDescDistinct | ytb1.py:48-52 | ranking keys that have no repeats gives a ranking with no repeats |
| Catalog.InsertDistinct | ytb1.py:48-52 | inserting a new element into a sequence without repeats keeps it without repeats |
| Catalog.AvailableFormats | ytb1.py:32-54 | the returned items' heights are the ranked keys of the reduced dictionary |
| Catalog.AvailableHeights | ytb1.py:32-54 | every video height appears exactly once and nothing else appears; the result is empty iff there is no video format |
| Catalog.AvailableLargest | ytb1.py:32-54 | each item's format is a video format of the listing under the item's height, of the largest size, and the first of the largest |
| Catalog.AvailableSorted | ytb1.py:48-52 | items come highest height first |
| Catalog.AvailableStable | ytb1.py:44-52 | items of equal rank appear in the order their heights first occur in the listing |
| Catalog.GetAvailableFormats | ytb1.py:32-54 | the method returns exactly the specified catalogue |
| Catalog.ExampleReduction | ytb1.py:37-45 | for 1080p at 50 MB and 80 MB, 720p at 30 MB and an audio stream, the 80 MB format replaces the 50 MB one and the audio stream is skipped |
| Catalog.ExampleCatalogue | ytb1.py:32-54 | that listing gives the 80 MB 1080p format, then the 720p one |
| QualityMenu.SizeNote | ytb1.py:164-165 | a size note is shown exactly when `filesize` is present and non-zero, and it is that size |
| QualityMenu.HeightText | ytb1.py:169 | `str(res)` for a catalogue key: the int's digits, "unknown" or "None" (no ensures; `QualityMenu.HeightTextIsQuality` states its properties) |
| QualityMenu.SelectionData | ytb1.py:169 | the callback data `f"dl_{quality}_{url}"` (no ensures; `BotFlow.ParseSelectionData` parses it back) |
| QualityMenu.VideoButton | ytb1.py:164-170 | a height's button: caption `<res>p`, its size note and its callback data (no ensures) |
| QualityMenu.AudioButton | ytb1.py:173-178 | the audio-only button with data `dl_audio_<url>` (no ensures) |
| QualityMenu.Label | ytb1.py:164-168 | the caption with the megabyte note when there is a size (no ensures; `QualityMenu.LabelWithoutSize` states the no-size case) |
| QualityMenu.LabelWithoutSize | ytb1.py:164-168 | a format without a truthy size is labelled `<height>p` and nothing more |
| QualityMenu.VideoButtonCount | ytb1.py:163 | `min(3, len(items))` |
| QualityMenu.MenuButtons | ytb1.py:161-179 | the keyboard has `min(3, n) + 1` buttons, at most 4; the first ones are the first items' buttons in rank order, and the audio button is last |
| QualityMenu.BuildMenu | ytb1.py:161-179 | the loop builds exactly the specified keyboard |
| QualityMenu.HeightTextIsQuality | ytb1.py:169 | a height's text never contains '_' and is never "audio", so a video button is never taken for audio |
| BotFlow.AcceptsIff | ytb1.py:132 | a URL is accepted iff "youtube.com" or "youtu.be" occurs in it |
| BotFlow.AcceptsMarkerAnywhere | ytb1.py:132 | any text containing a marker, anywhere, is accepted |
| BotFlow.RejectsWithoutLowerY | ytb1.py:132 | a text with no lower-case 'y' is rejected (the test is case-sensitive) |
| BotFlow.Accepts | ytb1.py:132 | the URL test `"youtube.com" in url or "youtu.be" in url` (no ensures; `BotFlow.AcceptsIff` characterises it) |
| BotFlow.TwoDigits | ytb1.py:146 | two decimal digits denoting the number |
| BotFlow.DayPrefix | ytb1.py:146 | the "<d> day[s], " part of `timedelta.__str__`, empty for zero days (no ensures; used by `BotFlow.DurationReadsBack`) |
| BotFlow.DurationText | ytb1.py:146 | `str(timedelta(seconds=s))` for whole seconds, none on overflow (no ensures; `BotFlow.DurationReadsBack` and `BotFlow.DurationOverflow` characterise it) |
| BotFlow.DurationReadsBack | ytb1.py:146 | `days * 86400 + h:m:s` prints as the day prefix, then unpadded hours and two-digit minutes and seconds |
| BotFlow.ClockParts | ytb1.py:146 | the floor divisions `timedelta` performs recover days, hours, minutes and seconds |
| BotFlow.DurationOverflow | ytb1.py:146 | the duration text fails exactly when the day count leaves ±999999999 |
| BotFlow.Respond | ytb1.py:126-191 | the extractor is asked iff the stripped text passes the URL test, and is asked with that stripped text; a rejected text gets the invalid-URL reply; no info gets the could-not-get-info reply; otherwise the reply is the one `Describe` gives for that info |
| BotFlow.Describe | ytb1.py:145-179 | a missing duration, a duration out of the `timedelta` range, a missing title or a missing uploader ends in the error reply; with all of them present the reply is "no formats" iff no format is a video format and a menu iff some format is; a menu carries the title, uploader, duration text and the keyboard of the ranked catalogue |
| BotFlow.Complete | ytb1.py:146-149 | the duration, title and uploader the handler reads are present and the duration has a text |
| BotFlow.MenuIffVideo | ytb1.py:126-179 | for an accepted text with complete info, the bot shows a menu exactly when some format is a video format, and otherwise answers that no formats were found |
| BotFlow.HandleMessage | ytb1.py:126-191 | the handler computes exactly the specified turn |
| BotFlow.MenuShape | ytb1.py:156-179 | a menu reply has 2 to 4 buttons: the top-ranked items' buttons, then audio, all carrying the stripped text |
| BotFlow.ExampleDuration | ytb1.py:146 | 125 seconds print as "0:02:05" |
| BotFlow.ExampleButtons | ytb1.py:161-179 | the example listing gives a 1080p button, a 720p button and the audio button, in that order |
| BotFlow.ExampleMenu | ytb1.py:126-191 | for any accepted text, the example listing of a 125-second video gets that menu, with duration "0:02:05" |
| BotFlow.ParseCallback | ytb1.py:201-205 | `parts[1]` and `'_'.join(parts[2:])` of data starting "dl_" (no ensures; `BotFlow.ParseSelectionData` and `BotFlow.ParseCallbackInverse` characterise it) |
| BotFlow.ParseSelectionData | ytb1.py:201-205 | data built from a quality without '_' and any URL, even one containing '_', parses back to that quality and URL |
| BotFlow.ParseCallbackInverse | ytb1.py:201-205 | a parsed quality never contains '_', and the data is the selection's data, or `dl_<quality>` with an empty URL |
| BotFlow.Requested | ytb1.py:209-214 | nothing is downloaded iff the quality is neither "audio" nor an `int` literal; a download uses the parsed URL; it is an audio download exactly when the quality is "audio", and a video download otherwise, at the height `int(quality)` gives |
| BotFlow.Callback | ytb1.py:199-247 | data without "dl_" is left alone; a quality that is neither "audio" nor an `int` literal ends in the error reply; a failed download (no file name) ends in "Download failed" and sends nothing; otherwise the audio request sends the reported name with ".mp3" and a video request sends it normalised to ".mp4" with its numeric quality |
| BotFlow.MenuPressSends | ytb1.py:163-247 | pressing a shown button: audio sends the ".mp3" name, a numeric height sends the ".mp4" name with its height text, a failed download sends nothing, a non-numeric height ends in the error reply |
| BotFlow.NonNumericQualityFails | ytb1.py:209-214 | a quality that is neither "audio" nor a number ends in the error reply, whatever the downloader would return |
| BotFlow.NotNumber | ytb1.py:214 | a stripped text starting with neither a digit nor a sign is not an `int` literal |
| BotFlow.AudioButtonRequest | ytb1.py:209-211 | the audio button parses back to "audio" and its URL, and asks for an audio download |
| BotFlow.VideoButtonRequest | ytb1.py:212-214 | a height's button parses back to its height text and URL; it asks for that height, or for nothing when the height is not a number |
| BotFlow.HeightRequest | ytb1.py:212-214 | the download a height's button asks for: that height when it is an int, none otherwise (no ensures; a reference for `BotFlow.VideoButtonRequest`) |
| BotFlow.MenuRequests | ytb1.py:163-214 | each button of a keyboard carries its URL back; the last asks for audio, and the others ask for their heights |
| BotFlow.MenuLeadsBack | ytb1.py:126-214 | any button of the menu shown for a message leads back to the stripped message as URL; audio last, numeric heights downloaded, other heights fail |
| PathNames.LastIndexOf | ytb1.py:287 | the last index holding the character, or -1 |
| PathNames.FinalComponent | ytb1.py:287 | the part after the last '/' holds no '/' |
| PathNames.Splitext | ytb1.py:287 | stem and extension concatenate to the path |
| PathNames.SplitextShape | ytb1.py:287 | the extension is empty or is '.' followed by neither '.' nor '/'; a non-empty extension leaves a stem whose final component is not all dots |
| PathNames.LastSepAfterAppend | ytb1.py:287 | appending an extension leaves the last '/' where it was |
| PathNames.LastDotAfterAppend | ytb1.py:287 | appending an extension makes its leading '.' the last dot |
| PathNames.SplitextAllDots | ytb1.py:337 | a path whose final component is empty or all dots has no extension |
| PathNames.SplitextDotsThenExt | ytb1.py:337 | an extension appended to such a component is not split off again |
| PathNames.SplitextAppend | ytb1.py:287 | a proper stem plus an extension splits back into that stem and extension |
| PathNames.VideoFileName | ytb1.py:286-289 | the video name ends ".mp4", and a name already ending ".mp4" is kept |
| PathNames.EndsWith | ytb1.py:286 | `str.endswith` (no ensures) |
| PathNames.AudioFileName | ytb1.py:337 | the audio name ends ".mp3" |
| PathNames.AudioNameKeepsStem | ytb1.py:337 | the audio name splits back into the reported name's stem and ".mp3" |
| PathNames.AudioNameIdempotent | ytb1.py:337 | normalising an audio name twice changes nothing more |
| PathNames.AudioNameNotIdempotentOnBareName | ytb1.py:337 | a name whose final component is empty or all dots gains ".mp3" and then a second ".mp3", so the rule is not idempotent there |
| PathNames.VideoNameKeepsStem | ytb1.py:286-289 | a rewritten video name splits back into the reported name's stem and ".mp4" |
| PathNames.VideoNameIdempotent | ytb1.py:286-289 | normalising a video name twice changes nothing more |

## Left out

- Telegram calls are not modelled: replies, message edits, deletions, `send_audio` and `send_video`. The model states which reply a turn ends with, up to the failures of those calls listed below.
- yt-dlp is not modelled: `extract_info` with or without download, and `prepare_filename`. Their results are the parameters `info` and `prepared`.
- A `None` parameter stands for an exception in these calls, or for the falsy results the code treats the same way. For a video download this includes a failing `os.rename` to the ".mp4" name, which `download_video` catches, so the press ends in "Download failed".
- `info: Option<Info>` uses `None` for both `None` and an empty dictionary, since `if not info` rejects both. `Some` stands for a non-empty dictionary.
- File-system effects are left out: `os.rename`, `os.remove`, `os.path.exists`, and the clean-up after a failed send.
- The progress hooks and the status messages are left out, since they only display text.
- The fixed message texts are left out. `info_text`'s upload date and view count appear only in the text.
- The `merge_output_format`, `format` and `outtmpl` options are left out, and so are options-dictionary copies. They are inputs to yt-dlp only.
- Bot start-up and the token are left out, along with the `/start` and `/help` texts.
- `YouTubeDownloader.download_video` is left out. No handler calls it.
- `QualityMenu.Label`: the megabyte text `round(size / (1024 * 1024), 1)` is floating point, so it is a parameter.
- `BotFlow.DurationText` covers whole-second durations only. A fractional duration (`timedelta(seconds=125.5)` prints `0:02:05.500000` and the menu is still shown) is not modelled. It is reachable, since the URL test accepts any site's URL that mentions a marker. A `None` duration and a missing key both raise and take the handler's error path; there they are one case, `duration == None`.
- `Catalog.Format.filesize` is a natural number. Float sizes are not modelled.
- A `formats` value of `None` is not modelled. It would make the loop raise.
- `isinstance(True, int)` is not modelled, so heights are ints, 'unknown' or `None`.
- `PyText.ParseInt` accepts ASCII digits only. `int()` also accepts other Unicode decimal digits.
- Telegram's 64-byte limit on `callback_data` is not modelled. A long URL makes the real keyboard fail to send.
- The menu is sent with `parse_mode='HTML'` and the title and uploader unescaped. A title or uploader that is not valid HTML (one containing `<`, say) makes Telegram reject the message, and the turn ends with the error text, where the model gives `Menu`.
- `PathNames.Splitext` follows the POSIX `os.path.splitext` only.
- `PathNames.AudioNameIdempotent` holds only when the final path component of the reported name has a character other than '.'. Without one, the audio rule is not idempotent (`PathNames.AudioNameNotIdempotentOnBareName`).
