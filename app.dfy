/**
 The pure helpers of the Flask media server: how a requested file name is
 classified into the MIME type handed to the Chromecast, how a file name is
 made safe for a query string, and the `{"success": true, ...}` response body.
 */
module App {
  import opened Strings

  const AUDIO_MP3 := "audio/mp3"
  const VIDEO_MP4 := "video/mp4"

  /** Extensions that the first loop of `mimetype_from_filename` tries, in order. */
  const AUDIO_EXTS: seq<string> := [".mp3", ".ogg", ".flac", ".wav"]
  /** Extensions that the second loop tries, in order. */
  const VIDEO_EXTS: seq<string> := [".mp4", ".mkv", ".mov", ".avi"]

  // ---------------------------------------------------------------------
  // mimetype_from_filename

  /** One `for ext in exts: if ext in filename: return ...` loop: true when it returns early. */
  function AnyContained(exts: seq<string>, filename: string): (found: bool)
  {
    if exts == [] then false
    else Contains(exts[0], filename) || AnyContained(exts[1..], filename)
  }

  /** The loop returns early exactly when some extension of the list occurs in the name. */
  lemma {:induction false} AnyContainedIff(exts: seq<string>, filename: string)
    ensures AnyContained(exts, filename) <==> exists k :: 0 <= k < |exts| && Contains(exts[k], filename)
  {
    if exts != [] {
      AnyContainedIff(exts[1..], filename);
      if AnyContained(exts[1..], filename) {
        var k :| 0 <= k < |exts[1..]| && Contains(exts[1..][k], filename);
        assert Contains(exts[k + 1], filename);
      }
      forall k | 0 < k < |exts| && Contains(exts[k], filename)
        ensures AnyContained(exts[1..], filename)
      {
        assert exts[1..][k - 1] == exts[k];
      }
    }
  }

  /** The audio loop, then the video loop, then the fallback. */
  function MimetypeFromFilename(filename: string): (mime: string)
    ensures mime == AUDIO_MP3 || mime == VIDEO_MP4
  {
    if AnyContained(AUDIO_EXTS, filename) then AUDIO_MP3
    else if AnyContained(VIDEO_EXTS, filename) then VIDEO_MP4
    else VIDEO_MP4
  }

  /** Audio exactly when one of the audio extensions occurs anywhere in the name. */
  lemma MimetypeAudioIff(filename: string)
    ensures MimetypeFromFilename(filename) == AUDIO_MP3
        <==> exists k :: 0 <= k < |AUDIO_EXTS| && Contains(AUDIO_EXTS[k], filename)
  {
    AnyContainedIff(AUDIO_EXTS, filename);
  }

  /**
   Video exactly when no audio extension occurs: the video extensions never
   decide the outcome, since the video loop and the fallback agree.
   */
  lemma MimetypeVideoIff(filename: string)
    ensures MimetypeFromFilename(filename) == VIDEO_MP4
        <==> forall k :: 0 <= k < |AUDIO_EXTS| ==> !Contains(AUDIO_EXTS[k], filename)
  {
    AnyContainedIff(AUDIO_EXTS, filename);
  }

  /** Audio takes precedence over video when both kinds of extension occur. */
  lemma AudioBeforeVideo(filename: string, a: nat, v: nat)
    requires a < |AUDIO_EXTS| && Contains(AUDIO_EXTS[a], filename)
    requires v < |VIDEO_EXTS| && Contains(VIDEO_EXTS[v], filename)
    ensures MimetypeFromFilename(filename) == AUDIO_MP3
  {
    MimetypeAudioIff(filename);
  }

  /** A name ending in `.mp3` is audio. */
  lemma Mp3SuffixIsAudio(stem: string)
    ensures MimetypeFromFilename(stem + ".mp3") == AUDIO_MP3
  {
    assert (stem + ".mp3")[|stem|..|stem| + 4] == ".mp3";
    ContainsFromOccurrence(".mp3", stem + ".mp3", |stem|);
    MimetypeAudioIff(stem + ".mp3");
  }

  /** Audio wins over video in either order, and the extension need not be a suffix. */
  lemma AudioWinsEitherOrder()
    ensures MimetypeFromFilename("x.mkv.mp3") == AUDIO_MP3
    ensures MimetypeFromFilename("a.mp3.mkv") == AUDIO_MP3
  {
    ContainsFromOccurrence(".mp3", "x.mkv.mp3", 5);
    MimetypeAudioIff("x.mkv.mp3");
    ContainsFromOccurrence(".mp3", "a.mp3.mkv", 1);
    MimetypeAudioIff("a.mp3.mkv");
  }

  /**
   Video whenever each audio extension has a letter the name lacks
   (`p` of `.mp3`, `g` of `.ogg`, `f` of `.flac`, `w` of `.wav`).
   */
  lemma VideoWithoutAudioLetters(filename: string)
    requires 'p' !in filename && 'g' !in filename && 'f' !in filename && 'w' !in filename
    ensures MimetypeFromFilename(filename) == VIDEO_MP4
  {
    NotContainedByChar(".mp3", filename, 'p');
    NotContainedByChar(".ogg", filename, 'g');
    NotContainedByChar(".flac", filename, 'f');
    NotContainedByChar(".wav", filename, 'w');
    MimetypeVideoIff(filename);
  }

  /** A video name without any audio extension is classified as video. */
  lemma VideoExample()
    ensures MimetypeFromFilename("movie.mkv") == VIDEO_MP4
  {
    VideoWithoutAudioLetters("movie.mkv");
  }

  /** Appending `.MP3` to a name adds no occurrence of any audio extension. */
  lemma UpperMp3AddsNoAudioExt(stem: string, k: nat)
    requires k < |AUDIO_EXTS|
    ensures Contains(AUDIO_EXTS[k], stem + ".MP3") <==> Contains(AUDIO_EXTS[k], stem)
  {
    var ext, upper := AUDIO_EXTS[k], stem + ".MP3";
    assert ".MP3"[..3] == ".MP";
    assert upper[|upper| - 3] == 'M' && upper[|upper| - 1] == '3';
    if k == 0 {
      OccursAtChar(ext, upper, |upper| - |ext|, 1);
    } else {
      OccursAtChar(ext, upper, |upper| - |ext|, |ext| - 1);
    }
    ContainedBeforeLast(ext, stem, ".MP3");
  }

  /**
   The tests are case-sensitive: a name ending in `.MP3` is video unless an
   audio extension occurs earlier in it, while the same name ending in `.mp3`
   is audio.
   */
  lemma CaseSensitive(stem: string)
    requires forall k :: 0 <= k < |AUDIO_EXTS| ==> !Contains(AUDIO_EXTS[k], stem)
    ensures MimetypeFromFilename(stem + ".MP3") == VIDEO_MP4
    ensures MimetypeFromFilename(stem + ".mp3") == AUDIO_MP3
  {
    forall k | 0 <= k < |AUDIO_EXTS|
      ensures !Contains(AUDIO_EXTS[k], stem + ".MP3")
    {
      UpperMp3AddsNoAudioExt(stem, k);
    }
    MimetypeVideoIff(stem + ".MP3");
    Mp3SuffixIsAudio(stem);
  }

  // ---------------------------------------------------------------------
  // urlencode

  /** `filename.replace(' ', '+')`, one character at a time. */
  function UrlEncode(filename: string): (encoded: string)
    ensures |encoded| == |filename|
    ensures forall i :: 0 <= i < |filename| ==>
      encoded[i] == (if filename[i] == ' ' then '+' else filename[i])
  {
    if filename == [] then []
    else [if filename[0] == ' ' then '+' else filename[0]] + UrlEncode(filename[1..])
  }

  /** The encoded name has no space left in it. */
  lemma UrlEncodeNoSpace(filename: string)
    ensures ' ' !in UrlEncode(filename)
  {
    var encoded := UrlEncode(filename);
    forall i | 0 <= i < |encoded|
      ensures encoded[i] != ' '
    {
    }
  }

  /** A name is left alone exactly when it has no space. */
  lemma {:induction false} UrlEncodeFixedIff(filename: string)
    ensures UrlEncode(filename) == filename <==> ' ' !in filename
  {
    if ' ' in filename {
      var i :| 0 <= i < |filename| && filename[i] == ' ';
      assert UrlEncode(filename)[i] != filename[i];
    } else {
      assert UrlEncode(filename) == filename;
    }
  }

  /** Encoding twice is encoding once. */
  lemma UrlEncodeIdempotent(filename: string)
    ensures UrlEncode(UrlEncode(filename)) == UrlEncode(filename)
  {
    UrlEncodeNoSpace(filename);
    UrlEncodeFixedIff(UrlEncode(filename));
  }

  /** Two names can encode alike: a space and a plus sign are not told apart. */
  lemma UrlEncodeNotInjective()
    ensures "a b" != "a+b" && UrlEncode("a b") == UrlEncode("a+b") == "a+b"
  {
    assert UrlEncode("a b")[1] == '+';
    assert UrlEncode("a+b") == "a+b";
  }

  // ---------------------------------------------------------------------
  // OKResponse

  /** The JSON-serialisable values a response may carry. */
  datatype Json =
    | JNull
    | JBool(b: bool)
    | JInt(i: int)
    | JStr(s: string)
    | JList(items: seq<Json>)
    | JDict(fields: map<string, Json>)

  /** Python's `d.update(other)`: keys of both, and `other` wins on the keys they share. */
  function Update(d: map<string, Json>, other: map<string, Json>): (r: map<string, Json>)
    ensures r.Keys == d.Keys + other.Keys
    ensures forall k :: k in other ==> r[k] == other[k]
    ensures forall k :: k in d && k !in other ==> r[k] == d[k]
  {
    d + other
  }

  /** A successful response, built from an arbitrary value the constructor stores. */
  class OKResponse {
    const rc: Json

    constructor (rc: Json)
      ensures this.rc == rc
    {
      this.rc := rc;
    }

    /** `{"success": True}`, then the dict's own entries or a single `"value"` entry. */
    method Web() returns (resp: map<string, Json>)
      ensures "success" in resp
      ensures !rc.JDict? ==> resp == map["success" := JBool(true), "value" := rc]
      ensures rc.JDict? ==> resp.Keys == {"success"} + rc.fields.Keys
      ensures rc.JDict? ==> forall k :: k in rc.fields ==> resp[k] == rc.fields[k]
      ensures rc.JDict? ==>
        resp["success"] == (if "success" in rc.fields then rc.fields["success"] else JBool(true))
    {
      resp := map["success" := JBool(true)];
      if rc.JDict? {
        resp := Update(resp, rc.fields);
      } else {
        resp := Update(resp, map["value" := rc]);
      }
    }
  }
}
