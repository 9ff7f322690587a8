/**
 The command-line player script: which file it asks the Chromecast to play,
 with which MIME type, and how a bare file name becomes a URL on the local
 web server.
 */
module CcPlay {
  import opened Strings
  import App

  /** The local web server that serves bare file names. */
  const LOCAL_URL := "http://192.168.1.30:8888/"
  /** The file played when no command-line argument is given. */
  const DEFAULT_FILE := "Outlaws - Green Grass and High Tides.mp3"

  /** The file name the script starts from: `argv[1]` when present, else the default. */
  function ChosenFile(argv: seq<string>): (name: string)
  {
    if |argv| > 1 then argv[1] else DEFAULT_FILE
  }

  /**
   The script's top-level assignments: pick the file, decide the type from the
   file name, then turn a name without "http" into a URL on the local server.
   */
  method SelectMedia(argv: seq<string>) returns (localFile: string, localType: string)
    ensures localType == App.AUDIO_MP3 || localType == App.VIDEO_MP4
    ensures localType == App.AUDIO_MP3 <==> Contains(".mp3", ChosenFile(argv))
    ensures Contains("http", ChosenFile(argv)) ==> localFile == ChosenFile(argv)
    ensures !Contains("http", ChosenFile(argv)) ==> localFile == LOCAL_URL + ChosenFile(argv)
    ensures Contains("http", localFile)
    ensures localType == App.AUDIO_MP3 <==> Contains(".mp3", localFile)
    ensures |argv| <= 1 ==> localFile == LOCAL_URL + DEFAULT_FILE && localType == App.AUDIO_MP3
  {
    DefaultFileIsMp3();
    DefaultFileIsNotUrl();
    localFile := DEFAULT_FILE;
    if |argv| > 1 {
      localFile := argv[1];
    }
    if Contains(".mp3", localFile) {
      localType := App.AUDIO_MP3;
    } else {
      localType := App.VIDEO_MP4;
    }
    if !Contains("http", localFile) {
      PrefixKeepsMp3(localFile);
      LocalUrlHasHttp(localFile);
      localFile := LOCAL_URL + localFile;
    }
  }

  /** Prefixing with the local server's URL never adds or removes an ".mp3". */
  lemma PrefixKeepsMp3(name: string)
    ensures Contains(".mp3", LOCAL_URL + name) <==> Contains(".mp3", name)
  {
    assert 'm' !in LOCAL_URL && LOCAL_URL[|LOCAL_URL| - 1] == '/';
    ContainedPastSecond(".mp3", LOCAL_URL, name);
  }

  /** Every prefixed name contains "http", so the prefixing step never applies twice. */
  lemma LocalUrlHasHttp(name: string)
    ensures Contains("http", LOCAL_URL + name)
  {
    assert (LOCAL_URL + name)[..4] == "http";
    ContainsFromOccurrence("http", LOCAL_URL + name, 0);
  }

  /** The default file is an ".mp3" name. */
  lemma DefaultFileIsMp3()
    ensures Contains(".mp3", DEFAULT_FILE)
  {
    ContainsFromOccurrence(".mp3", DEFAULT_FILE, |DEFAULT_FILE| - 4);
  }

  /** The default file is not a URL: its one 'h' is not followed by "ttp". */
  lemma DefaultFileIsNotUrl()
    ensures !Contains("http", DEFAULT_FILE)
  {
    var head, tail := "Outlaws - Green Grass and Hig", "h Tides.mp3";
    assert DEFAULT_FILE == head + tail;
    assert tail[1] != 't';
    NotContainedSplit("http", head, tail);
  }

  /** Whatever the script calls audio, the server's classifier calls audio too. */
  lemma AudioAgreesWithApp(name: string)
    requires Contains(".mp3", name)
    ensures App.MimetypeFromFilename(name) == App.AUDIO_MP3
  {
    App.MimetypeAudioIff(name);
    assert Contains(App.AUDIO_EXTS[0], name);
  }

  /** The script is cruder than the server: an ".ogg" name is video here and audio there. */
  lemma OggDisagreesWithApp()
    ensures !Contains(".mp3", "song.ogg")
    ensures App.MimetypeFromFilename("song.ogg") == App.AUDIO_MP3
  {
    NotContainedByChar(".mp3", "song.ogg", 'm');
    ContainsFromOccurrence(".ogg", "song.ogg", 4);
    App.MimetypeAudioIff("song.ogg");
    assert Contains(App.AUDIO_EXTS[1], "song.ogg");
  }
}
