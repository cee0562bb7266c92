# VibeStream Pro backend helpers, modelled in Dafny

VibeStream Pro's backend (`backend/main.py`) is a small web service. It takes a
video URL and either returns the video's metadata or streams its audio as an MP3.
Almost all of the file hands work to the extraction library, the web framework
and the rate limiter. This project models the three helpers in it whose
behaviour can be stated on its own terms:

- `format_duration` (module `Duration`, `duration.dfy`) renders a duration in
  seconds as `H:MM:SS` or `M:SS`, or as `Unknown` when the duration is absent.
  Python's `divmod(n, 60)` floors, which is exactly Dafny's Euclidean `/` and `%`
  for the divisor 60. So the model covers every integer, negative ones included.
  For those, the hour field is negative and comes out as `-1:59:55` for -5.
  `ParseDuration` reads a rendering back: it is the inverse of the rendering,
  so the rendering loses nothing.
- `sanitize_filename` (module `Filename`, `filename.dfy`) is a pipeline of three
  sequence functions. `RemoveForbidden` deletes the characters `\ / * ? : " < > |`.
  `Strip` does what Python's `str.strip(chars)` does, for any set of characters, and
  the sanitizer applies it to whitespace. `Prefix` is the slice `[:100]`.
  Whitespace is the table of characters for which Python's `str.isspace()` holds,
  written out as a set.
- `build_ydl_opts` (module `YdlOptions`, `ydl_options.dfy`) is a method that
  builds the option map by successive updates, in the source's order. It reads
  two things that the source gets from the filesystem: whether the cookie files
  exist (`get_cookies_path`) and whether the bundled transcoder exists
  (`FFMPEG_LOCATION`). Here they are fields of a `Host` value.
  `DownloadOpts` models the download route's call `build_ydl_opts(True, True)`
  followed by `.update(...)`.

`wrappers.dfy` holds the `Option` type that stands for Python's `X | None`.

## Model

| member | source | states |
|---|---|---|
| `Duration.NatToString` | backend/main.py:135-136 | `str()` of a non-negative int is a non-empty string of digits, with no leading zero unless it is `0` itself; one digit exactly below 10, two digits from 10 to 99 |
| `Duration.IntToString` | backend/main.py:135 | `str()` of any int starts with `-` exactly when the int is negative |
| `Duration.Pad2` | backend/main.py:135-136 | the `:02` format of a field below 100 is exactly two digits |
| `Duration.ParseNatToString` | backend/main.py:135-136 | the unpadded decimal rendering of a non-negative int reads back as that int |
| `Duration.ParseIntToString` | backend/main.py:135 | the rendering of any int, sign included, reads back as that int |
| `Duration.Split` | backend/main.py:132-133 | the two `divmod`s give minutes and seconds in `0..59` and hours with `hrs*3600 + mins*60 + secs == seconds`; the hour field is zero exactly when `0 <= seconds < 3600` and negative exactly when `seconds < 0` |
| `Duration.FormatDuration` | backend/main.py:129-136 | the result is `Unknown` exactly when the duration is `None`; no present duration renders as `Unknown` |
| `Duration.FormatShort` | backend/main.py:132-136 | for `0 <= seconds < 3600` the result is `M:SS`: `seconds / 60` unpadded, a colon, `seconds % 60` zero-padded to two digits |
| `Duration.FormatLong` | backend/main.py:132-135 | for `seconds >= 3600` the result is `H:MM:SS`: `seconds / 3600`, then the minutes and the seconds of the remainder, each zero-padded to two digits |
| `Duration.FormatNegative` | backend/main.py:132-135 | a negative duration has a non-zero hour field, so it takes the three-field form with a leading minus sign |
| `Duration.ParseLongForm` | backend/main.py:135 | a rendered `H:MM:SS` reads back as `H*3600 + MM*60 + SS` |
| `Duration.ParseShortForm` | backend/main.py:136 | a rendered `M:SS` with `M < 60` reads back as `M*60 + SS` |
| `Duration.FormatDurationRoundTrip` | backend/main.py:129-136 | for every integer, parsing the rendering gives back that integer |
| `Duration.FormatDurationInjective` | backend/main.py:129-136 | two inputs with the same rendering are equal, whether present or absent |
| `Filename.RemoveForbidden` | backend/main.py:140 | the regex substitution leaves no forbidden character; it keeps every other character with its multiplicity and drops all of the forbidden ones |
| `Filename.LeadingCount` | backend/main.py:140 | `strip()` starts the slice it keeps after a run of stripped characters at the front of the input, followed by the end or by a character it does not strip |
| `Filename.TrailingCount` | backend/main.py:140 | the run of stripped characters at the back of the input is followed by the start or preceded by a character it does not strip |
| `Filename.Strip` | backend/main.py:140 | `strip()` returns a string that neither starts nor ends with a stripped character. The result is one contiguous slice of the input, starting right after the leading run |
| `Filename.StripDropsOnly` | backend/main.py:140 | every character that `strip()` drops, before or after the kept slice, is one it strips (whitespace, for `sanitize_filename`) |
| `Filename.StripUnchangedIff` | backend/main.py:140 | `strip()` returns its input unchanged exactly when the input neither starts nor ends with a stripped character |
| `Filename.StripDropsLastChar` | backend/main.py:140 | stripping a non-empty trimmed string followed by one stripped character gives back that string |
| `Filename.Prefix` | backend/main.py:140 | the slice `[:n]` has length `min(len, n)` and is a prefix of its input |
| `Filename.SanitizeFilename` | backend/main.py:139-140 | the result has no forbidden character, at most 100 characters and no leading whitespace; it is a prefix of the stripped, filtered name, and the whole of it unless cut at 100 |
| `Filename.RemoveForbiddenNone` | backend/main.py:140 | the substitution leaves a string with no forbidden character unchanged |
| `Filename.RemoveForbiddenConcat` | backend/main.py:140 | the substitution works one character at a time: it distributes over concatenation |
| `Filename.RemoveForbiddenSubMultiset` | backend/main.py:140 | the substitution never adds characters |
| `Filename.StripSubMultiset` | backend/main.py:140 | `strip()` never adds characters |
| `Filename.SanitizeOnlyDeletes` | backend/main.py:139-140 | the sanitized name holds no character more often than the original name |
| `Filename.SanitizeUnchangedIff` | backend/main.py:139-140 | a name comes back unchanged exactly when it has no forbidden character, no whitespace at either end and at most 100 characters |
| `Filename.SanitizeTwiceIff` | backend/main.py:139-140 | sanitizing a sanitized name changes it exactly when the first result ends in whitespace |
| `Filename.SanitizeCutsOnly` | backend/main.py:139-140 | a name with no forbidden character and no whitespace at either end is only cut to its first 100 characters |
| `Filename.CutExposesTrailingSpace` | backend/main.py:140 | because the cut to 100 comes after the strip, a clean, trimmed 99-character name followed by `" b"` comes out with a trailing space |
| `Filename.SecondPassStripsTrailingSpace` | backend/main.py:140 | sanitizing that result again removes the trailing space, so the sanitizer is not idempotent |
| `YdlOptions.JoinPath` | backend/main.py:53 | joining a directory and a file name gives the directory, then one `/` exactly when the directory does not already end in one, then the file name |
| `YdlOptions.LocalCookiesPath` | backend/main.py:53 | `COOKIES_PATH` is the server's own directory followed by `/cookies.txt` |
| `YdlOptions.FfmpegLocation` | backend/main.py:44-49 | the transcoder location is the server's own directory exactly when both bundled executables exist, and absent otherwise |
| `YdlOptions.GetCookiesPath` | backend/main.py:58-64 | a cookie path is returned exactly when either cookie file exists; the Docker secret wins over the local file |
| `YdlOptions.BuildYdlOpts` | backend/main.py:143-186 | with both flags defaulting to false, as in the source: the base keys are always present with their fixed values and no key outside base plus the five conditional ones appears; `skip_download` is present (and true) exactly when not downloading; `ffmpeg_location` is present exactly when asked for and the bundled transcoder exists (with a non-empty directory), and then it is that directory; `cookiefile` is present exactly when a cookie file exists, and then it is the secret path in preference to the local one; otherwise `extractor_args` is present with the `mweb` player client and `player_skip` of `webpage` and `configs`, and `http_headers` is present with the mobile User-Agent; the two modes never occur together |
| `YdlOptions.DownloadOpts` | backend/main.py:262-275 | the download options keep the base settings and carry the format, output template and MP3 extraction entries. They never skip the download. No key appears beyond the base, conditional and download keys. `ffmpeg_location` is present exactly when the bundled transcoder exists, and then it is the server's directory. `cookiefile` is present exactly when a cookie file exists, and then it is the secret path in preference to the local one. Otherwise the guest `extractor_args` and `http_headers` values are present. The options are in exactly one of cookie mode and guest mode |
| `YdlOptions.DownloadEntries` | backend/main.py:265-275 | the entries the download route adds are exactly `format`, `outtmpl` and `postprocessors`. The format asks for the best audio. The output template is the temporary directory, a `/` separator and the template `%(title)s.%(ext)s` |

## Left out

- The route handlers `analyze_video` and `download_audio` (backend/main.py:200-304) are left out. They call the extraction library, pass its exceptions through and raise web-framework HTTP errors, all foreign code. Only the option map that the download route builds is modelled, by `DownloadOpts`.
- Temp-directory creation, the `*.mp3` glob, `shutil.rmtree` cleanup and the `iterfile` streaming generator (backend/main.py:262-304) are left out as filesystem I/O. `mkdtemp`'s result is a parameter of `DownloadOpts`.
- The rate limiter (backend/main.py:35-41, 201, 232) is left out. It is third-party middleware whose state the code does not own.
- CORS configuration, environment-variable parsing, logging setup and the startup checks (backend/main.py:24-33, 74-113) are left out as configuration and side effects.
- `ffmpeg_available` and the `Path.exists` and `shutil.which` probes (backend/main.py:44-49, 58-71) are left out as OS queries. Their outcomes are the boolean fields of `Host`.
- `YdlOptions.JoinPath`: models `str(Path(dir) / name)` for a resolved POSIX directory only. Windows separators and pathlib's other normalisation are not modelled, because the `str()` rendering of a path depends on the operating system.
- `Duration.FormatDuration`: the model covers integer durations only. The extraction library can report a float duration. Then `divmod` returns floats, every field is rendered as a float and the `:02` zero-padding is lost: 65.0 gives `1.0:5.0`. Floating point is not modelled.
- The regular-expression engine is not modelled. Its one use here deletes the members of a fixed character class, so it is `RemoveForbidden`.
- The Unicode tables behind `str.isspace()` are not modelled as tables. `Filename.Whitespace` lists their result as a set.
