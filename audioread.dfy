/** Choice of audio reader by file-name extension (AudioReaderFactory).
    The readers themselves open and decode files; here the factory's answer is
    the kind of reader it would construct, or Unsupported where it throws
    UnsupportedAudioFileException. */
module AudioRead {

  datatype Option<T> = None | Some(value: T)

  /** The reader the factory selects for a file name. */
  datatype ReaderKind = MP3 | WAV | Unsupported

  /** Position of the last occurrence of `c` in `s`, or -1 when there is none
      (String.lastIndexOf). */
  function LastIndexOf(s: string, c: char): (r: int)
    ensures -1 <= r < |s|
    ensures r == -1 <==> c !in s
    ensures 0 <= r ==> s[r] == c && c !in s[r + 1..]
  {
    if |s| == 0 then -1
    else if s[|s| - 1] == c then |s| - 1
    else LastIndexOf(s[..|s| - 1], c)
  }

  /** The extension of a file name: the suffix that starts at its last '.',
      dot included; None for a name without a dot, where the factory throws. */
  function FileExtension(name: string): (ext: Option<string>)
    ensures ext.None? <==> '.' !in name
    ensures ext.Some? ==>
      && 1 <= |ext.value| <= |name|
      && ext.value[0] == '.'
      && '.' !in ext.value[1..]
      && name[|name| - |ext.value|..] == ext.value
  {
    if '.' !in name then None
    else Some(name[LastIndexOf(name, '.')..])
  }

  /** The reader kind for a file name: exactly ".mp3" selects the MP3 reader,
      exactly ".wav" the WAV reader; any other extension, and a name without
      one, is unsupported. */
  function AudioReaderFor(name: string): (r: ReaderKind)
    ensures r == MP3 <==> FileExtension(name) == Some(".mp3")
    ensures r == WAV <==> FileExtension(name) == Some(".wav")
    ensures r == Unsupported <==> FileExtension(name) !in {Some(".mp3"), Some(".wav")}
  {
    match FileExtension(name)
    case None => Unsupported
    case Some(ext) =>
      if ext == ".mp3" then MP3
      else if ext == ".wav" then WAV
      else Unsupported
  }

  /** `s` ends with `suffix`. */
  predicate EndsWith(s: string, suffix: string)
  {
    |suffix| <= |s| && s[|s| - |suffix|..] == suffix
  }

  /** A suffix that starts with '.' and holds no other '.' is the extension:
      only the text after the last dot decides. */
  lemma ExtensionIsLastDottedSuffix(name: string, p: nat)
    requires p < |name| && name[p] == '.' && '.' !in name[p + 1..]
    ensures FileExtension(name) == Some(name[p..])
  {
  }

  /** The MP3 reader is chosen exactly for names ending in ".mp3". */
  lemma SelectsMp3Iff(name: string)
    ensures AudioReaderFor(name) == MP3 <==> EndsWith(name, ".mp3")
  {
    if EndsWith(name, ".mp3") {
      var p := |name| - 4;
      assert name[p + 1..] == "mp3";
      ExtensionIsLastDottedSuffix(name, p);
    }
  }

  /** The WAV reader is chosen exactly for names ending in ".wav". */
  lemma SelectsWavIff(name: string)
    ensures AudioReaderFor(name) == WAV <==> EndsWith(name, ".wav")
  {
    if EndsWith(name, ".wav") {
      var p := |name| - 4;
      assert name[p + 1..] == "wav";
      ExtensionIsLastDottedSuffix(name, p);
    }
  }

  /** Every other name is rejected, including one without a dot. */
  lemma RejectsOtherNames(name: string)
    ensures AudioReaderFor(name) == Unsupported <==> !EndsWith(name, ".mp3") && !EndsWith(name, ".wav")
    ensures '.' !in name ==> AudioReaderFor(name) == Unsupported
  {
    SelectsMp3Iff(name);
    SelectsWavIff(name);
  }

  /** Only the text after the last dot decides. */
  lemma LastExtensionDecides()
    ensures AudioReaderFor("a.mp3.wav") == WAV
    ensures AudioReaderFor("a.wav.mp3") == MP3
  {
    assert "a.mp3.wav"[5..] == ".wav";
    SelectsWavIff("a.mp3.wav");
    assert "a.wav.mp3"[5..] == ".mp3";
    SelectsMp3Iff("a.wav.mp3");
  }

  /** The match is case sensitive, other formats are rejected, and a
      trailing dot is an extension of its own. */
  lemma DispatchRejects()
    ensures AudioReaderFor("song.WAV") == Unsupported
    ensures AudioReaderFor("clip.aiff") == Unsupported
    ensures FileExtension("song.") == Some(".") && AudioReaderFor("song.") == Unsupported
  {
    assert "song.WAV"[4..] != ".wav" && "song.WAV"[4..] != ".mp3";
    RejectsOtherNames("song.WAV");
    assert "clip.aiff"[5..] != ".wav" && "clip.aiff"[5..] != ".mp3";
    RejectsOtherNames("clip.aiff");
    ExtensionIsLastDottedSuffix("song.", 4);
  }
}
