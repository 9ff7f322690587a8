# ccast-player helpers in Dafny

ccast-player is a small Flask media server (`app.py`) and a command-line
script (`ccplay.py`) that ask a Chromecast to play a file. Apart from the
Flask, pychromecast and ffmpeg glue, the two files contain a handful of
sequential string and dictionary helpers. This project models those helpers
and proves what they do:

- `mimetype_from_filename`: the MIME type handed to the Chromecast, decided
  by ordered, case-sensitive substring tests (audio extensions first, then
  video extensions, then a video fallback).
- `urlencode`: every space of a file name becomes `+`.
- `OKResponse`: stores a value and builds the `{"success": True, ...}`
  response body with dictionary updates.
- The top-level code of `ccplay.py` that picks the file from the command line,
  decides its type from `.mp3`, and turns a bare name into a URL on the local
  web server. It is modelled as a method with the script's sequential
  assignments.

Files:

- `strings.dfy` (module `Strings`): Python's `sub in s` on strings,
  `Contains`, with its characterisation as "occurs at some index" and the
  lemmas about concatenation that the other modules need.
- `app.dfy` (module `App`): the helpers of `app.py`, the `Json` values a
  response carries, and the `OKResponse` class.
- `ccplay.dfy` (module `CcPlay`): the file/type/URL selection of `ccplay.py`
  and how it compares with the classifier of `app.py`.

## Model

| member | source | states |
|---|---|---|
| Strings.Contains | app.py:62 | Python's `sub in s`: with `Strings.ContainsIff` it holds exactly when `sub` occurs at some index of `s`; the same test is used at app.py:65 and ccplay.py:21 and 27 |
| Strings.ContainsIff | app.py:62 | `Contains(sub, s)` holds exactly when `sub` occurs in `s` starting at some index, both directions |
| App.AnyContained | app.py:61-65 | one `for ext in ...: if ext in filename: return` loop (app.py:61-62 and again 64-65); with `App.AnyContainedIff` it is true exactly when the loop returns early |
| App.AnyContainedIff | app.py:61-63 | a `for ext in ...: if ext in filename: return` loop returns early exactly when some extension of the list occurs in the name |
| App.MimetypeFromFilename | app.py:60-67 | the result is always `audio/mp3` or `video/mp4`, never anything else |
| App.MimetypeAudioIff | app.py:61-63 | the result is `audio/mp3` exactly when one of `.mp3`, `.ogg`, `.flac`, `.wav` occurs anywhere in the name |
| App.MimetypeVideoIff | app.py:64-67 | the result is `video/mp4` exactly when no audio extension occurs; the video extensions never change the outcome |
| App.AudioBeforeVideo | app.py:61-66 | a name containing both an audio and a video extension is audio |
| App.Mp3SuffixIsAudio | app.py:61-63 | any name ending in `.mp3` is audio |
| App.AudioWinsEitherOrder | app.py:61-66 | `x.mkv.mp3` and `a.mp3.mkv` are both audio: the test is for a substring, not a suffix, and audio wins in either order |
| App.VideoWithoutAudioLetters | app.py:60-67 | a name that has none of the letters `p`, `g`, `f`, `w` (one from each audio extension) is video |
| App.VideoExample | app.py:64-66 | `movie.mkv` is video |
| App.UpperMp3AddsNoAudioExt | app.py:61-63 | appending `.MP3` to a name neither adds nor removes an occurrence of any audio extension |
| App.CaseSensitive | app.py:61-63 | the tests are case-sensitive: for a stem in which no audio extension occurs, `stem + ".MP3"` is video while `stem + ".mp3"` is audio (a name such as `a.ogg.MP3` is still audio, because of its `.ogg`) |
| App.UrlEncode | app.py:119-120 | same length as the input; every space becomes `+` and every other character is kept at its position |
| App.UrlEncodeNoSpace | app.py:119-120 | the encoded name contains no space |
| App.UrlEncodeFixedIff | app.py:119-120 | a name is unchanged by encoding exactly when it has no space |
| App.UrlEncodeIdempotent | app.py:119-120 | encoding twice gives the same as encoding once |
| App.UrlEncodeNotInjective | app.py:119-120 | `a b` and `a+b` both encode to `a+b`, so encoding loses information |
| App.Update | app.py:83-85 | `dict.update`: the keys of both maps, and the argument's value wins on a shared key |
| App.OKResponse.constructor | app.py:78-79 | the response stores the value it is given |
| App.OKResponse.Web | app.py:80-87 | for a non-dict value the body is exactly `{"success": True, "value": rc}`; for a dict the keys are `success` and the dict's keys, every dict key keeps its value, and `success` is True unless the dict itself sets `success`, whose value then wins |
| CcPlay.ChosenFile | ccplay.py:16-19 | the file name the script starts from: `argv[1]` when there is an argument after the program name, else the default name |
| CcPlay.SelectMedia | ccplay.py:15-28 | the first argument after the program name replaces the default file (extra arguments are ignored); the type is `audio/mp3` exactly when `.mp3` occurs in that name, else `video/mp4`; a name containing `http` anywhere is kept as it is, any other name gets the local server URL in front; the final file always contains `http`; the type agrees with the final file; with no argument the default `.mp3` file is played as audio from the local server |
| CcPlay.PrefixKeepsMp3 | ccplay.py:15-28 | putting the local server URL in front of a name neither adds nor removes an `.mp3`, so deciding the type before prefixing gives the same type as after |
| CcPlay.LocalUrlHasHttp | ccplay.py:27-28 | every prefixed name contains `http`, so prefixing never applies twice |
| CcPlay.DefaultFileIsMp3 | ccplay.py:16-22 | the default file name contains `.mp3` |
| CcPlay.DefaultFileIsNotUrl | ccplay.py:16-28 | the default file name contains no `http`, so it is prefixed |
| CcPlay.AudioAgreesWithApp | ccplay.py:21-22 | a name the script calls audio is audio for `mimetype_from_filename` too |
| CcPlay.OggDisagreesWithApp | ccplay.py:21-24 | `song.ogg` is video for the script but audio for `mimetype_from_filename`: only `.mp3` means audio in the script |

## Left out

- Chromecast discovery and control (app.py:48-57 and 215-239, ccplay.py:67-115): network calls into pychromecast.
- `stream_file` (app.py:184-208): an ffmpeg subprocess and a chunked streaming response; only its call of `mimetype_from_filename` is covered. As written it also uses `DEVNULL`, which app.py never imports.
- `home()` (app.py:122-141): a filesystem glob and natural sort; only its use of `urlencode` is covered.
- `ErrorResponse.web` (app.py:95-113): depends on the environment, the current exception and the terminal, and may re-raise.
- The shelve cache and the hand-built `CastInfo` in ccplay.py (lines 35-63, 79-82): persistent storage and foreign constructors.
- Logging setup and the routes that return constant responses (app.py:36-44, 147-178).
- App.OKResponse.Web: a map has no order, so the insertion order of the Python dict (`success` first) is not modelled; dictionary keys are strings, as in a JSON body, and logging of the response is left out.
- App.Json: Python values are reduced to the JSON kinds (null, bool, int, string, list, string-keyed dict); other objects a caller could pass are not modelled.
