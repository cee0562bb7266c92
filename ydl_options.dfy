/**
 * `build_ydl_opts` of backend/main.py and the host facts it reads: the option
 * dictionary handed to the extraction library. It starts from fixed privacy
 * settings and then adds, one decision at a time, `skip_download` for metadata
 * requests, `ffmpeg_location` when a bundled transcoder is present, and either
 * the cookie file (authenticated mode) or the mobile-web client profile with a
 * mobile User-Agent (guest mode).
 *
 * The filesystem probes of the source (`Path.exists()`) become fields of `Host`.
 */
module YdlOptions {
  import opened Wrappers

  /** The values that occur in the option dictionary. */
  datatype Value =
    | Bool(b: bool)
    | Str(s: string)
    | List(items: seq<Value>)
    | Dict(entries: map<string, Value>)

  type Options = map<string, Value>

  /**
   * What the running host looks like. `backendDir` is the `str()` of the resolved
   * directory that holds the server; the booleans are the existence probes.
   */
  datatype Host = Host(
    backendDir: string,
    ffmpegExeExists: bool,
    ffprobeExeExists: bool,
    secretCookiesExist: bool,
    localCookiesExist: bool)

  /** The Docker-secrets location of the cookie file. */
  const CookiesSecretPath: string := "/run/secrets/cookies_txt"

  const MobileUserAgent: string :=
    "Mozilla/5.0 (Linux; Android 10; K) AppleWebKit/537.36 (KHTML, like Gecko) Chrome/120.0.0.0 Mobile Safari/537.36"

  /** `str(Path(dir) / name)` for a resolved POSIX directory. */
  function JoinPath(dir: string, name: string): (p: string)
    ensures |p| > |name| && p[|p| - |name|..] == name && p[|p| - |name| - 1] == '/'
    ensures |dir| <= |p| - |name| <= |dir| + 1 && p[..|dir|] == dir
    ensures |p| == |dir| + |name| <==> dir != [] && dir[|dir| - 1] == '/'
  {
    if dir != [] && dir[|dir| - 1] == '/' then dir + name else dir + "/" + name
  }

  /** `COOKIES_PATH`: the cookie file next to the server. */
  function LocalCookiesPath(host: Host): (path: string)
    ensures 12 <= |path| && |host.backendDir| + 11 <= |path| <= |host.backendDir| + 12
    ensures path[..|host.backendDir|] == host.backendDir
    ensures path[|path| - 12] == '/' && path[|path| - 11..] == "cookies.txt"
  {
    JoinPath(host.backendDir, "cookies.txt")
  }

  /**
   * `FFMPEG_LOCATION`: the server's own directory when both bundled executables
   * are there, and nothing otherwise.
   */
  function FfmpegLocation(host: Host): (loc: Option<string>)
    ensures loc.Some? <==> host.ffmpegExeExists && host.ffprobeExeExists
    ensures loc.Some? ==> loc.value == host.backendDir
  {
    if host.ffmpegExeExists && host.ffprobeExeExists then Some(host.backendDir) else None
  }

  /**
   * `get_cookies_path`: the Docker secret when it exists, else the local file when
   * it exists, else nothing.
   */
  function GetCookiesPath(host: Host): (path: Option<string>)
    ensures path.Some? <==> host.secretCookiesExist || host.localCookiesExist
    ensures host.secretCookiesExist ==> path == Some(CookiesSecretPath)
    ensures !host.secretCookiesExist && host.localCookiesExist ==> path == Some(LocalCookiesPath(host))
  {
    if host.secretCookiesExist then Some(CookiesSecretPath)
    else if host.localCookiesExist then Some(LocalCookiesPath(host))
    else None
  }

  /** The settings every option dictionary starts from: quiet, and nothing cached or written. */
  const BaseOptions: Options := map[
    "quiet" := Bool(true),
    "no_warnings" := Bool(true),
    "no_color" := Bool(true),
    "cachedir" := Bool(false),
    "writedescription" := Bool(false),
    "writeinfojson" := Bool(false),
    "writeannotations" := Bool(false),
    "writesubtitles" := Bool(false),
    "writethumbnail" := Bool(false)
  ]

  /** Guest mode's `extractor_args`: the mobile-web client, skipping page and config fetches. */
  const GuestExtractorArgs: Value := Dict(map[
    "youtube" := Dict(map[
      "player_client" := List([Str("mweb")]),
      "player_skip" := List([Str("webpage"), Str("configs")])
    ])
  ])

  /** Guest mode's `http_headers`: a mobile browser's User-Agent. */
  const GuestHttpHeaders: Value := Dict(map["User-Agent" := Str(MobileUserAgent)])

  /** The keys `build_ydl_opts` may add to the base settings. */
  const ConditionalKeys: set<string> :=
    {"skip_download", "ffmpeg_location", "cookiefile", "extractor_args", "http_headers"}

  /** No conditional key overwrites a base setting. */
  lemma ConditionalKeysAreNew()
    ensures forall k :: k in ConditionalKeys ==> k !in BaseOptions
  {
  }

  /** Authenticated mode: the extraction library is given a cookie file. */
  predicate CookieMode(opts: Options) {
    "cookiefile" in opts
  }

  /** Guest mode: the mobile-web client profile and a mobile User-Agent. */
  predicate GuestMode(opts: Options) {
    "extractor_args" in opts && "http_headers" in opts
  }

  /** The client profiles named under `extractor_args.youtube.player_client`, if any. */
  function PlayerClients(opts: Options): (clients: Option<seq<Value>>)
    ensures clients.Some? ==> "extractor_args" in opts
  {
    if "extractor_args" in opts && opts["extractor_args"].Dict?
       && "youtube" in opts["extractor_args"].entries
       && opts["extractor_args"].entries["youtube"].Dict?
       && "player_client" in opts["extractor_args"].entries["youtube"].entries
       && opts["extractor_args"].entries["youtube"].entries["player_client"].List?
    then Some(opts["extractor_args"].entries["youtube"].entries["player_client"].items)
    else None
  }

  /** Options carrying the guest-mode extractor arguments name the `mweb` client alone. */
  lemma GuestPlayerClients(opts: Options)
    requires "extractor_args" in opts && opts["extractor_args"] == GuestExtractorArgs
    ensures PlayerClients(opts) == Some([Str("mweb")])
  {
    var youtube := GuestExtractorArgs.entries["youtube"];
    assert youtube.entries["player_client"] == List([Str("mweb")]);
  }

  /**
   * `build_ydl_opts(for_download, include_ffmpeg)`: the base settings, then each
   * conditional entry added in the order the source adds them.
   */
  method BuildYdlOpts(host: Host, forDownload: bool := false, includeFfmpeg: bool := false)
    returns (opts: Options)
    ensures forall k :: k in BaseOptions ==> k in opts && opts[k] == BaseOptions[k]
    ensures forall k :: k in opts ==> k in BaseOptions || k in ConditionalKeys
    ensures "skip_download" in opts <==> !forDownload
    ensures "skip_download" in opts ==> opts["skip_download"] == Bool(true)
    ensures "ffmpeg_location" in opts <==>
              includeFfmpeg && host.ffmpegExeExists && host.ffprobeExeExists && host.backendDir != ""
    ensures "ffmpeg_location" in opts ==> opts["ffmpeg_location"] == Str(host.backendDir)
    ensures CookieMode(opts) <==> host.secretCookiesExist || host.localCookiesExist
    ensures CookieMode(opts) ==>
              opts["cookiefile"] == Str(if host.secretCookiesExist then CookiesSecretPath
                                        else LocalCookiesPath(host))
    ensures GuestMode(opts) <==> !CookieMode(opts)
    ensures "extractor_args" in opts <==> GuestMode(opts)
    ensures "http_headers" in opts <==> GuestMode(opts)
    ensures GuestMode(opts) ==>
              opts["extractor_args"] == GuestExtractorArgs
              && opts["http_headers"] == GuestHttpHeaders
              && PlayerClients(opts) == Some([Str("mweb")])
  {
    ConditionalKeysAreNew();
    opts := BaseOptions;

    if !forDownload {
      opts := opts["skip_download" := Bool(true)];
    }

    // `if include_ffmpeg and FFMPEG_LOCATION`: an empty location string is false.
    var location := FfmpegLocation(host);
    if includeFfmpeg && location.Some? && location.value != "" {
      opts := opts["ffmpeg_location" := Str(location.value)];
    }

    var cookies := GetCookiesPath(host);
    if cookies.Some? {
      opts := opts["cookiefile" := Str(cookies.value)];
    } else {
      opts := opts["extractor_args" := GuestExtractorArgs];
      opts := opts["http_headers" := GuestHttpHeaders];
      GuestPlayerClients(opts);
    }
  }

  /** The extraction library's file-name template: the video title and the extension. */
  const OutputTemplate: string := "%(title)s.%(ext)s"

  /** The entries the download route adds before downloading into `tmpDir`. */
  function DownloadEntries(tmpDir: string): (entries: Options)
    ensures entries.Keys == {"format", "outtmpl", "postprocessors"}
    ensures entries["format"] == Str("bestaudio/best")
    ensures entries["outtmpl"].Str? && |tmpDir| < |entries["outtmpl"].s|
            && entries["outtmpl"].s[..|tmpDir|] == tmpDir
    ensures entries["outtmpl"] == Str(JoinPath(tmpDir, OutputTemplate))
  {
    map[
      "format" := Str("bestaudio/best"),
      "outtmpl" := Str(JoinPath(tmpDir, OutputTemplate)),
      "postprocessors" := List([Dict(map[
        "key" := Str("FFmpegExtractAudio"),
        "preferredcodec" := Str("mp3"),
        "preferredquality" := Str("192")
      ])])
    ]
  }

  /** The download entries overwrite nothing `build_ydl_opts` may have set. */
  lemma DownloadKeysAreNew(tmpDir: string)
    ensures forall k :: k in DownloadEntries(tmpDir) ==> k !in BaseOptions && k !in ConditionalKeys
  {
  }

  /**
   * The options of the download step of the download route:
   * `build_ydl_opts(for_download=True, include_ffmpeg=True)` followed by
   * `.update(...)` with the format, output template and MP3 extraction.
   */
  method DownloadOpts(host: Host, tmpDir: string) returns (opts: Options)
    ensures forall k :: k in BaseOptions ==> k in opts && opts[k] == BaseOptions[k]
    ensures forall k :: k in DownloadEntries(tmpDir) ==> k in opts && opts[k] == DownloadEntries(tmpDir)[k]
    ensures "skip_download" !in opts
    ensures forall k :: k in opts ==> k in BaseOptions || k in ConditionalKeys || k in DownloadEntries(tmpDir)
    ensures "ffmpeg_location" in opts <==>
              host.ffmpegExeExists && host.ffprobeExeExists && host.backendDir != ""
    ensures "ffmpeg_location" in opts ==> opts["ffmpeg_location"] == Str(host.backendDir)
    ensures CookieMode(opts) <==> host.secretCookiesExist || host.localCookiesExist
    ensures CookieMode(opts) ==>
              opts["cookiefile"] == Str(if host.secretCookiesExist then CookiesSecretPath
                                        else LocalCookiesPath(host))
    ensures GuestMode(opts) <==> !CookieMode(opts)
    ensures "extractor_args" in opts <==> GuestMode(opts)
    ensures "http_headers" in opts <==> GuestMode(opts)
    ensures GuestMode(opts) ==>
              opts["extractor_args"] == GuestExtractorArgs
              && opts["http_headers"] == GuestHttpHeaders
  {
    opts := BuildYdlOpts(host, forDownload := true, includeFfmpeg := true);
    var entries := DownloadEntries(tmpDir);
    DownloadKeysAreNew(tmpDir);
    opts := opts + entries;
  }
}
