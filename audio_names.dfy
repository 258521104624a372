/** The audio filename format of the describe endpoint and its split-parse in the audio endpoint. */
module AudioNames {

  /** The delimiter between the components of an audio filename. */
  const Separator: char := '_'

  const AudioSuffix: string := "_audio.wav"

  /** Route prefix of the audio endpoint. */
  const AudioRoute: string := "/audio/"

  /** Directory holding every synthesized file. */
  const AudioDir: string := "audio"

  /** Variant assumed for a filename that carries no separator. */
  const DefaultVariant: string := "detailed"

  /** `f"{image_hash}_{description_type}_{speaker_type}_audio.wav"`. */
  function AudioFilename(imageHash: string, descriptionType: string, speakerType: string): (name: string)
    ensures |name| == |imageHash| + |descriptionType| + |speakerType| + 2 + |AudioSuffix|
    ensures name[..|imageHash|] == imageHash && name[|imageHash|] == Separator
    ensures name[|imageHash| + 1..|imageHash| + 1 + |descriptionType|] == descriptionType
    ensures name[|imageHash| + 1 + |descriptionType|] == Separator
    ensures name[|imageHash| + |descriptionType| + 2..|name| - |AudioSuffix|] == speakerType
    ensures name[|name| - |AudioSuffix|..] == AudioSuffix
  {
    imageHash + [Separator] + descriptionType + [Separator] + speakerType + AudioSuffix
  }

  /** The `audio_url` returned to the client: the filename under the audio route. */
  function AudioUrl(filename: string): (url: string)
    ensures AudioRoute <= url && url[|AudioRoute|..] == filename
  {
    AudioRoute + filename
  }

  /** `os.path.join(audio_dir, filename)` for a plain filename: the filename inside the audio directory. */
  function AudioPath(filename: string): (path: string)
    ensures |path| == |AudioDir| + 1 + |filename|
    ensures path[..|AudioDir|] == AudioDir && path[|AudioDir|] == '/' && path[|AudioDir| + 1..] == filename
  {
    AudioDir + "/" + filename
  }

  /** Concatenation of `parts` with `sep` between neighbours (`sep.join(parts)`). */
  function Join(parts: seq<string>, sep: char): string
    requires |parts| >= 1
  {
    if |parts| == 1 then parts[0] else parts[0] + [sep] + Join(parts[1..], sep)
  }

  /** `s.split(sep)`: the maximal separator-free pieces, empty pieces included. */
  function Split(s: string, sep: char): (parts: seq<string>)
    ensures |parts| >= 1
    ensures forall i :: 0 <= i < |parts| ==> sep !in parts[i]
    ensures Join(parts, sep) == s
    decreases |s|
  {
    if s == [] then [""]
    else
      var rest := Split(s[1..], sep);
      if s[0] == sep then
        var parts := [""] + rest;
        assert parts[1..] == rest;
        parts
      else
        var parts := [[s[0]] + rest[0]] + rest[1..];
        assert |rest| > 1 ==> Join(rest, sep) == rest[0] + [sep] + Join(rest[1..], sep);
        assert |parts| > 1 ==> parts[1..] == rest[1..];
        assert forall i :: 1 <= i < |parts| ==> parts[i] == rest[i];
        parts
  }

  /** A separator-free string is one piece. */
  lemma {:induction false} SplitWithoutSeparator(a: string, sep: char)
    requires sep !in a
    ensures Split(a, sep) == [a]
    decreases |a|
  {
    if a != [] {
      SplitWithoutSeparator(a[1..], sep);
      assert [a[0]] + a[1..] == a;
    }
  }

  /** A separator-free head before the first separator becomes the first piece. */
  lemma {:induction false} SplitAfterPrefix(a: string, b: string, sep: char)
    requires sep !in a
    ensures Split(a + [sep] + b, sep) == [a] + Split(b, sep)
    decreases |a|
  {
    var s := a + [sep] + b;
    if a == [] {
      assert s[1..] == b;
    } else {
      assert s[1..] == a[1..] + [sep] + b;
      SplitAfterPrefix(a[1..], b, sep);
      assert [a[0]] + a[1..] == a;
    }
  }

  /** Splitting undoes joining when no piece holds the separator. */
  lemma {:induction false} SplitJoin(parts: seq<string>, sep: char)
    requires |parts| >= 1
    requires forall i :: 0 <= i < |parts| ==> sep !in parts[i]
    ensures Split(Join(parts, sep), sep) == parts
    decreases |parts|
  {
    if |parts| == 1 {
      SplitWithoutSeparator(parts[0], sep);
    } else {
      SplitJoin(parts[1..], sep);
      SplitAfterPrefix(parts[0], Join(parts[1..], sep), sep);
      assert [parts[0]] + parts[1..] == parts;
    }
  }

  /** The two components of a filename that the audio endpoint reads. */
  datatype AudioKey = AudioKey(imageHash: string, descriptionType: string)

  /**
   * `parts = filename.split("_")`; `parts[0]`, and `parts[1]` or "detailed" when there is none.
   * The hash is the separator-free run before the first separator; the variant is the
   * separator-free run right after it, ending at the second separator or at the end of the name.
   */
  function ParseAudioName(filename: string): (k: AudioKey)
    ensures Separator !in k.imageHash && k.imageHash <= filename
    ensures Separator !in filename ==> k == AudioKey(filename, DefaultVariant)
    ensures Separator in filename ==> Separator !in k.descriptionType
    ensures Separator in filename ==> filename[|k.imageHash|] == Separator
    ensures Separator in filename ==>
      var rest := filename[|k.imageHash| + 1..];
      && k.descriptionType <= rest
      && (|k.descriptionType| == |rest| || rest[|k.descriptionType|] == Separator)
  {
    var parts := Split(filename, Separator);
    if |parts| > 1 then
      var tail := parts[1..];
      assert Join(parts, Separator) == parts[0] + [Separator] + Join(tail, Separator);
      assert filename[|parts[0]| + 1..] == Join(tail, Separator);
      assert |tail| > 1 ==> Join(tail, Separator) == tail[0] + [Separator] + Join(tail[1..], Separator);
      AudioKey(parts[0], parts[1])
    else
      assert filename == parts[0];
      AudioKey(parts[0], DefaultVariant)
  }

  /** A name built by the describe endpoint parses back to its hash and variant. */
  lemma ParseFormatRoundTrip(imageHash: string, descriptionType: string, speakerType: string)
    requires Separator !in imageHash && Separator !in descriptionType
    ensures ParseAudioName(AudioFilename(imageHash, descriptionType, speakerType)) == AudioKey(imageHash, descriptionType)
  {
    var tail := speakerType + AudioSuffix;
    var rest := descriptionType + [Separator] + tail;
    assert AudioFilename(imageHash, descriptionType, speakerType) == imageHash + [Separator] + rest;
    SplitAfterPrefix(imageHash, rest, Separator);
    SplitAfterPrefix(descriptionType, tail, Separator);
  }

  /** A variant containing the separator is cut short by the parse. */
  lemma UnderscoredVariantIsCutShort(imageHash: string, speakerType: string)
    requires Separator !in imageHash
    ensures ParseAudioName(AudioFilename(imageHash, "very_detailed", speakerType)) == AudioKey(imageHash, "very")
  {
    var tail := "detailed" + [Separator] + speakerType + AudioSuffix;
    var rest := "very" + [Separator] + tail;
    assert AudioFilename(imageHash, "very_detailed", speakerType) == imageHash + [Separator] + rest;
    SplitAfterPrefix(imageHash, rest, Separator);
    SplitAfterPrefix("very", tail, Separator);
  }

  /** Different speaker strings give different files for the same hash and variant. */
  lemma SpeakerIsolation(imageHash: string, descriptionType: string, s1: string, s2: string)
    requires s1 != s2
    ensures AudioFilename(imageHash, descriptionType, s1) != AudioFilename(imageHash, descriptionType, s2)
  {
    var f1 := AudioFilename(imageHash, descriptionType, s1);
    var f2 := AudioFilename(imageHash, descriptionType, s2);
    var k := |imageHash| + |descriptionType| + 2;
    assert f1[k..|f1| - |AudioSuffix|] == s1;
    assert f2[k..|f2| - |AudioSuffix|] == s2;
  }

  /** The format is ambiguous once variant or speaker may hold the separator: two keys share a file. */
  lemma FilenameCollision(imageHash: string)
    ensures AudioFilename(imageHash, "a_b", "female") == AudioFilename(imageHash, "a", "b_female")
  {
  }
}
