/**
 * The two endpoints of the service as functions of the persistent state: the
 * describe endpoint (hash, key-type repair, cached or fresh caption, audio
 * synthesized when the file is absent) and the audio endpoint (serve, or parse
 * the filename and regenerate from the cached text, or 404).
 */
module Workflow {
  import opened Basics
  import opened Voice
  import opened Generation
  import opened Digests
  import opened AudioNames
  import opened Redis

  /**
   * The foreign code the service calls: md5 hex digest, caption generation and Coqui TTS
   * synthesis of (model, speaker, text) into wav bytes (None when it raises).
   * `caption` stands for the whole of lines 103-121: opening the image, BLIP generation and
   * decoding, and the CLIP forward pass of the refinement step. It is None when any of
   * these raises, for instance when a long "detailed" caption exceeds CLIP's text context;
   * every such failure comes before the HSET and ends in the 500.
   * Being function values, `caption` and `synthesize` are deterministic: the same inputs
   * always give the same caption, the same failure or the same wav bytes.
   */
  datatype Collaborators = Collaborators(
    digest: Bytes -> Digest,
    caption: (Bytes, GenerationArgs) -> Option<string>,
    synthesize: (string, string, string) -> Option<Bytes>)

  /** Everything that persists between requests: the Redis keyspace and the files of the audio directory. */
  datatype Store = Store(keyspace: Keyspace, audio: map<string, Bytes>)

  datatype DescribeResponse =
    | Described(description: string, audioUrl: string, imageUrl: string)
    | InternalServerError

  datatype AudioResponse = AudioFile(path: string, content: Bytes) | NotFound(error: string)

  /** The new state and response of one describe request, and which collaborators it invoked. */
  datatype DescribeStep = DescribeStep(store: Store, response: DescribeResponse, captioned: bool, synthesized: bool)

  /** The new state and response of one audio request, whether it read Redis and whether it invoked TTS. */
  datatype ServeStep = ServeStep(store: Store, response: AudioResponse, keyspaceRead: bool, synthesized: bool)

  const ImageUrlPrefix: string := "data:image/png;base64,"

  /** The `image_url` of the response: the image's bytes as hex text behind a data-URL prefix. */
  function ImageUrl(image: Bytes): (url: string)
    ensures |url| == |ImageUrlPrefix| + 2 * |image|
    ensures url[..|ImageUrlPrefix|] == ImageUrlPrefix
    ensures IsHexText(url[|ImageUrlPrefix|..])
  {
    ImageUrlPrefix + Hex(image)
  }

  /** The text after the prefix is hex that decodes back to the image, so distinct images get distinct URLs. */
  lemma ImageUrlDeterminesImage(image: Bytes)
    ensures IsHexText(ImageUrl(image)[|ImageUrlPrefix|..])
    ensures Unhex(ImageUrl(image)[|ImageUrlPrefix|..]) == image
  {
    assert ImageUrl(image)[|ImageUrlPrefix|..] == Hex(image);
    UnhexHex(image);
  }

  /**
   * The CLIP refinement step: the CLIP model is run but its output is discarded, so the
   * text handed on is the BLIP caption itself. A failure of the CLIP pass is part of
   * `Collaborators.caption` returning None.
   */
  function RefineDescription(image: Bytes, initialDescription: string): (refined: string)
    ensures refined == initialDescription
  {
    initialDescription
  }

  /** A cached description counts only when present and non-empty (`not cached_description` is false). */
  predicate IsHit(cached: Option<string>) {
    cached.Some? && cached.value != ""
  }

  /** Reference definition: the text stored for (hash, variant), when the key holds a hash with that field. */
  function StoredDescription(ks: Keyspace, imageHash: string, descriptionType: string): Option<string> {
    if imageHash in ks && ks[imageHash].HashValue? && descriptionType in ks[imageHash].fields
    then Some(ks[imageHash].fields[descriptionType])
    else None
  }

  /** Deletes the key when TYPE reports neither "hash" nor "none". */
  function RepairKeyType(ks: Keyspace, imageHash: string): (r: Keyspace)
    ensures Type(r, imageHash) == "hash" || Type(r, imageHash) == "none"
  {
    var keyType := Type(ks, imageHash);
    if keyType != "hash" && keyType != "none" then Delete(ks, imageHash) else ks
  }

  /** The description read by the describe endpoint: HGETALL, then `.get(variant)` on a non-empty map. */
  function CachedDescription(ks: Keyspace, imageHash: string, descriptionType: string): (cached: Option<string>)
    requires HGetAll(ks, imageHash).Ok?
    ensures cached.Some? <==> descriptionType in HGetAll(ks, imageHash).value
    ensures cached.Some? ==> cached.value == HGetAll(ks, imageHash).value[descriptionType]
  {
    assert descriptionType in HGetAll(ks, imageHash).value ==> descriptionType in HGetAll(ks, imageHash).value.Keys;
    var cachedData := HGetAll(ks, imageHash).value;
    if |cachedData| > 0 && descriptionType in cachedData then Some(cachedData[descriptionType]) else None
  }

  /**
   * POST /describe-image/. Only the request's own audio file can appear, and it is
   * synthesized only when it was absent; a success answers with that file's URL.
   */
  function Describe(c: Collaborators, s: Store, image: Bytes, speakerType: string, descriptionType: string): (step: DescribeStep)
    ensures var f := AudioFilename(c.digest(image), descriptionType, speakerType);
      && step.store.audio.Keys <= s.audio.Keys + {f}
      && (step.synthesized ==> f !in s.audio)
      && (step.response.Described? ==> step.response.audioUrl == AudioUrl(f) && f in step.store.audio)
  {
    var imageHash := c.digest(image);
    var keyspace := RepairKeyType(s.keyspace, imageHash);
    var cached := CachedDescription(keyspace, imageHash, descriptionType);
    var audioFilename := AudioFilename(imageHash, descriptionType, speakerType);
    if IsHit(cached) then
      ProduceAudio(c, Store(keyspace, s.audio), image, speakerType, audioFilename, cached.value, false)
    else
      match c.caption(image, GenerationArgsFor(descriptionType))
      case None => DescribeStep(Store(keyspace, s.audio), InternalServerError, true, false)
      case Some(initialDescription) =>
        var refined := RefineDescription(image, initialDescription);
        var written := HSet(keyspace, imageHash, descriptionType, refined).value;
        ProduceAudio(c, Store(written, s.audio), image, speakerType, audioFilename, refined, true)
  }

  /** Second half of the describe endpoint: synthesize the file only when it is absent, then answer. */
  function ProduceAudio(c: Collaborators, s: Store, image: Bytes, speakerType: string, audioFilename: string,
                        description: string, captioned: bool): (step: DescribeStep)
    ensures step.store.keyspace == s.keyspace && step.captioned == captioned
    ensures step.store.audio.Keys <= s.audio.Keys + {audioFilename}
    ensures step.synthesized <==> audioFilename !in s.audio
    ensures step.response.Described? ==>
      step.response.description == description && step.response.audioUrl == AudioUrl(audioFilename)
      && audioFilename in step.store.audio
  {
    var response := Described(description, AudioUrl(audioFilename), ImageUrl(image));
    if audioFilename in s.audio then
      DescribeStep(s, response, captioned, false)
    else
      var (model, speaker) := TtsModelAndSpeaker(speakerType);
      match c.synthesize(model, speaker, description)
      case None => DescribeStep(s, InternalServerError, captioned, true)
      case Some(wav) => DescribeStep(Store(s.keyspace, s.audio[audioFilename := wav]), response, captioned, true)
  }

  function AudioNotFoundMessage(filename: string): string {
    "Audio file " + filename + " not found and could not be regenerated."
  }

  /**
   * GET /audio/{filename}. Redis is never written, only the requested file can appear, and
   * the answer is a file exactly when that file exists afterwards.
   */
  function ServeAudio(c: Collaborators, s: Store, filename: string): (step: ServeStep)
    ensures step.store.keyspace == s.keyspace
    ensures step.store.audio.Keys <= s.audio.Keys + {filename}
    ensures step.response.AudioFile? <==> filename in step.store.audio
    ensures !step.keyspaceRead ==> step.store == s && filename in s.audio
  {
    if filename in s.audio then
      ServeStep(s, AudioFile(AudioPath(filename), s.audio[filename]), false, false)
    else
      var key := ParseAudioName(filename);
      var cached := HGet(s.keyspace, key.imageHash, key.descriptionType);
      if cached.WrongType? || !IsHit(cached.value) then
        ServeStep(s, NotFound(AudioNotFoundMessage(filename)), true, false)
      else
        var (model, speaker) := TtsModelAndSpeaker("female");
        match c.synthesize(model, speaker, cached.value.value)
        case None => ServeStep(s, NotFound(AudioNotFoundMessage(filename)), true, true)
        case Some(wav) =>
          ServeStep(Store(s.keyspace, s.audio[filename := wav]), AudioFile(AudioPath(filename), wav), true, true)
  }

  // ---------------------------------------------------------------------------
  // Key-type repair and the two ways of reading a cached description
  // ---------------------------------------------------------------------------

  /** After the repair the key is absent or a hash; only a key of another type is deleted. */
  lemma RepairKeyTypeSpec(ks: Keyspace, imageHash: string)
    ensures var r := RepairKeyType(ks, imageHash);
      && (imageHash !in r || r[imageHash].HashValue?)
      && (imageHash in ks && ks[imageHash].Other? ==> r == ks - {imageHash})
      && (imageHash !in ks || ks[imageHash].HashValue? ==> r == ks)
      && (WellFormed(ks) ==> WellFormed(r))
  {
  }

  /** HGETALL after the repair reads exactly the stored text (a key of another type reads as absent). */
  lemma CachedAfterRepair(ks: Keyspace, imageHash: string, descriptionType: string)
    ensures CachedDescription(RepairKeyType(ks, imageHash), imageHash, descriptionType)
         == StoredDescription(ks, imageHash, descriptionType)
  {
    var r := RepairKeyType(ks, imageHash);
    if imageHash in r {
      var fields := r[imageHash].fields;
      if descriptionType in fields {
        assert |fields| > 0 by {
          assert descriptionType in fields.Keys;
        }
      }
    }
  }

  /** HGET reads a usable description exactly when one is stored; WRONGTYPE and absence both read as none. */
  lemma HGetHit(ks: Keyspace, imageHash: string, descriptionType: string)
    ensures var cached := HGet(ks, imageHash, descriptionType);
      (cached.Ok? && IsHit(cached.value)) <==> IsHit(StoredDescription(ks, imageHash, descriptionType))
    ensures var cached := HGet(ks, imageHash, descriptionType);
      cached.Ok? && IsHit(cached.value) ==> cached.value == StoredDescription(ks, imageHash, descriptionType)
  {
  }

  // ---------------------------------------------------------------------------
  // The describe endpoint
  // ---------------------------------------------------------------------------

  /** Cache hit: the stored text is returned, Redis is untouched and the captioner is not invoked. */
  lemma DescribeCacheHit(c: Collaborators, s: Store, image: Bytes, speakerType: string, descriptionType: string)
    requires IsHit(StoredDescription(s.keyspace, c.digest(image), descriptionType))
    ensures var step := Describe(c, s, image, speakerType, descriptionType);
      && step.store.keyspace == s.keyspace
      && !step.captioned
      && (step.response.Described? ==>
            step.response.description == StoredDescription(s.keyspace, c.digest(image), descriptionType).value)
  {
    CachedAfterRepair(s.keyspace, c.digest(image), descriptionType);
  }

  /** On a cache hit the result does not depend on the captioner at all. */
  lemma CacheHitIgnoresCaptioner(c: Collaborators, caption: (Bytes, GenerationArgs) -> Option<string>,
                                 s: Store, image: Bytes, speakerType: string, descriptionType: string)
    requires IsHit(StoredDescription(s.keyspace, c.digest(image), descriptionType))
    ensures Describe(c.(caption := caption), s, image, speakerType, descriptionType)
         == Describe(c, s, image, speakerType, descriptionType)
  {
    CachedAfterRepair(s.keyspace, c.digest(image), descriptionType);
  }

  /** The repair never changes what is stored as a description. */
  lemma StoredAfterRepair(ks: Keyspace, imageHash: string, key: string, descriptionType: string)
    ensures StoredDescription(RepairKeyType(ks, imageHash), key, descriptionType) == StoredDescription(ks, key, descriptionType)
  {
  }

  /** HSET of one description sets that field and keeps every other stored description and key. */
  lemma WriteDescription(ks: Keyspace, imageHash: string, descriptionType: string, text: string)
    requires imageHash !in ks || ks[imageHash].HashValue?
    ensures HSet(ks, imageHash, descriptionType, text).Ok?
    ensures var written := HSet(ks, imageHash, descriptionType, text).value;
      && imageHash in written && written[imageHash].HashValue?
      && StoredDescription(written, imageHash, descriptionType) == Some(text)
      && (forall f :: f != descriptionType ==>
            StoredDescription(written, imageHash, f) == StoredDescription(ks, imageHash, f))
      && written.Keys == ks.Keys + {imageHash}
      && (forall k :: k in ks && k != imageHash ==> written[k] == ks[k])
  {
    var written := HSet(ks, imageHash, descriptionType, text).value;
    forall f | f != descriptionType
      ensures StoredDescription(written, imageHash, f) == StoredDescription(ks, imageHash, f)
    {
      assert HGet(written, imageHash, f) == HGet(ks, imageHash, f);
      HGetHit(written, imageHash, f);
    }
    assert HGet(written, imageHash, descriptionType) == Ok(Some(text));
  }

  /** Cache miss with a failing captioner: a 500, and only the key-type repair persists. */
  lemma DescribeCaptionFails(c: Collaborators, s: Store, image: Bytes, speakerType: string, descriptionType: string)
    requires !IsHit(StoredDescription(s.keyspace, c.digest(image), descriptionType))
    requires c.caption(image, GenerationArgsFor(descriptionType)).None?
    ensures Describe(c, s, image, speakerType, descriptionType)
         == DescribeStep(Store(RepairKeyType(s.keyspace, c.digest(image)), s.audio), InternalServerError, true, false)
  {
    CachedAfterRepair(s.keyspace, c.digest(image), descriptionType);
  }

  /**
   * Cache miss: the captioner runs with the variant's parameters and exactly the field
   * (hash, variant) is set to its caption, which is what is returned. Other variants of the
   * same image and all other keys are unchanged.
   */
  lemma DescribeCacheMiss(c: Collaborators, s: Store, image: Bytes, speakerType: string, descriptionType: string)
    requires !IsHit(StoredDescription(s.keyspace, c.digest(image), descriptionType))
    requires c.caption(image, GenerationArgsFor(descriptionType)).Some?
    ensures var step := Describe(c, s, image, speakerType, descriptionType);
      var imageHash := c.digest(image);
      var caption := c.caption(image, GenerationArgsFor(descriptionType)).value;
      && step.captioned
      && imageHash in step.store.keyspace && step.store.keyspace[imageHash].HashValue?
      && StoredDescription(step.store.keyspace, imageHash, descriptionType) == Some(caption)
      && (forall f :: f != descriptionType ==>
            StoredDescription(step.store.keyspace, imageHash, f) == StoredDescription(s.keyspace, imageHash, f))
      && step.store.keyspace.Keys == s.keyspace.Keys + {imageHash}
      && (forall k :: k in s.keyspace && k != imageHash ==> step.store.keyspace[k] == s.keyspace[k])
      && (step.response.Described? ==> step.response.description == caption)
  {
    var imageHash := c.digest(image);
    var caption := c.caption(image, GenerationArgsFor(descriptionType)).value;
    var repaired := RepairKeyType(s.keyspace, imageHash);
    DescribeMissUnfold(c, s, image, speakerType, descriptionType);
    ProduceAudioKeepsText(c, Store(HSet(repaired, imageHash, descriptionType, caption).value, s.audio), image,
                          speakerType, AudioFilename(imageHash, descriptionType, speakerType), caption, true);
    RepairThenWrite(s.keyspace, imageHash, descriptionType, caption);
  }

  /** Key-type repair followed by HSET, stated against the keyspace before the repair. */
  lemma RepairThenWrite(ks: Keyspace, imageHash: string, descriptionType: string, text: string)
    ensures HSet(RepairKeyType(ks, imageHash), imageHash, descriptionType, text).Ok?
    ensures var written := HSet(RepairKeyType(ks, imageHash), imageHash, descriptionType, text).value;
      && imageHash in written && written[imageHash].HashValue?
      && StoredDescription(written, imageHash, descriptionType) == Some(text)
      && (forall f :: f != descriptionType ==>
            StoredDescription(written, imageHash, f) == StoredDescription(ks, imageHash, f))
      && written.Keys == ks.Keys + {imageHash}
      && (forall k :: k in ks && k != imageHash ==> written[k] == ks[k])
  {
    var repaired := RepairKeyType(ks, imageHash);
    WriteDescription(repaired, imageHash, descriptionType, text);
    forall f | f != descriptionType
      ensures StoredDescription(repaired, imageHash, f) == StoredDescription(ks, imageHash, f)
    {
      StoredAfterRepair(ks, imageHash, imageHash, f);
    }
  }

  /** On a miss whose caption succeeds, the request writes the caption and goes on to the audio half. */
  lemma DescribeMissUnfold(c: Collaborators, s: Store, image: Bytes, speakerType: string, descriptionType: string)
    requires !IsHit(StoredDescription(s.keyspace, c.digest(image), descriptionType))
    requires c.caption(image, GenerationArgsFor(descriptionType)).Some?
    ensures var imageHash := c.digest(image);
      var caption := c.caption(image, GenerationArgsFor(descriptionType)).value;
      var repaired := RepairKeyType(s.keyspace, imageHash);
      && HSet(repaired, imageHash, descriptionType, caption).Ok?
      && Describe(c, s, image, speakerType, descriptionType)
         == ProduceAudio(c, Store(HSet(repaired, imageHash, descriptionType, caption).value, s.audio), image,
                         speakerType, AudioFilename(imageHash, descriptionType, speakerType), caption, true)
  {
    CachedAfterRepair(s.keyspace, c.digest(image), descriptionType);
  }

  /**
   * The audio half of the describe endpoint leaves Redis alone, answers with the text it was
   * given, synthesizes only an absent file and touches no other file.
   */
  lemma ProduceAudioKeepsText(c: Collaborators, s: Store, image: Bytes, speakerType: string, audioFilename: string,
                              description: string, captioned: bool)
    ensures var step := ProduceAudio(c, s, image, speakerType, audioFilename, description, captioned);
      var f := audioFilename;
      && step.store.keyspace == s.keyspace
      && step.captioned == captioned
      && (step.response.Described? ==>
            && step.response.description == description
            && step.response.audioUrl == "/audio/" + f && step.response.imageUrl == ImageUrl(image))
      && (f in step.store.audio <==> f in s.audio || step.response.Described?)
      && (f in s.audio ==> step.store.audio == s.audio && !step.synthesized)
      && (f !in s.audio && step.response.Described? ==>
            && step.synthesized
            && c.synthesize(TtsModel, TtsModelAndSpeaker(speakerType).1, description) == Some(step.store.audio[f]))
      && (forall g :: g != f ==> (g in step.store.audio <==> g in s.audio))
      && (forall g :: g != f && g in s.audio ==> step.store.audio[g] == s.audio[g])
  {
  }

  /**
   * Audio: the file is hash_variant_speaker_audio.wav and the URL is /audio/ + that name. The
   * file exists afterwards exactly when it existed before or the request succeeded; an existing
   * file is never rewritten or resynthesized; a new one holds the TTS output for the returned
   * text in the requested voice; no other file changes.
   */
  lemma DescribeAudio(c: Collaborators, s: Store, image: Bytes, speakerType: string, descriptionType: string)
    ensures var step := Describe(c, s, image, speakerType, descriptionType);
      var f := AudioFilename(c.digest(image), descriptionType, speakerType);
      && (f in step.store.audio <==> f in s.audio || step.response.Described?)
      && (step.response.Described? ==>
            step.response.audioUrl == "/audio/" + f && step.response.imageUrl == ImageUrl(image))
      && (f in s.audio ==> step.store.audio == s.audio && !step.synthesized)
      && (f !in s.audio && step.response.Described? ==>
            && step.synthesized
            && c.synthesize(TtsModel, TtsModelAndSpeaker(speakerType).1, step.response.description)
               == Some(step.store.audio[f]))
      && (forall g :: g != f ==> (g in step.store.audio <==> g in s.audio))
      && (forall g :: g != f && g in s.audio ==> step.store.audio[g] == s.audio[g])
  {
    var imageHash := c.digest(image);
    var repaired := RepairKeyType(s.keyspace, imageHash);
    var f := AudioFilename(imageHash, descriptionType, speakerType);
    var cached := CachedDescription(repaired, imageHash, descriptionType);
    CachedAfterRepair(s.keyspace, imageHash, descriptionType);
    var caption := c.caption(image, GenerationArgsFor(descriptionType));
    if IsHit(cached) {
      assert Describe(c, s, image, speakerType, descriptionType)
          == ProduceAudio(c, Store(repaired, s.audio), image, speakerType, f, cached.value, false);
      ProduceAudioKeepsText(c, Store(repaired, s.audio), image, speakerType, f, cached.value, false);
    } else if caption.None? {
      DescribeCaptionFails(c, s, image, speakerType, descriptionType);
    } else {
      DescribeMissUnfold(c, s, image, speakerType, descriptionType);
      var written := HSet(repaired, imageHash, descriptionType, caption.value).value;
      ProduceAudioKeepsText(c, Store(written, s.audio), image, speakerType, f, caption.value, true);
    }
  }

  /** The describe endpoint keeps the keyspace free of empty hashes. */
  lemma DescribePreservesWellFormed(c: Collaborators, s: Store, image: Bytes, speakerType: string, descriptionType: string)
    requires WellFormed(s.keyspace)
    ensures WellFormed(Describe(c, s, image, speakerType, descriptionType).store.keyspace)
  {
    RepairKeyTypeSpec(s.keyspace, c.digest(image));
  }

  /** A successful describe leaves the stored text for (hash, variant) equal to the description it returned. */
  lemma DescribeStoresDescription(c: Collaborators, s: Store, image: Bytes, speakerType: string, descriptionType: string)
    requires Describe(c, s, image, speakerType, descriptionType).response.Described?
    ensures var step := Describe(c, s, image, speakerType, descriptionType);
      StoredDescription(step.store.keyspace, c.digest(image), descriptionType) == Some(step.response.description)
  {
    if IsHit(StoredDescription(s.keyspace, c.digest(image), descriptionType)) {
      DescribeCacheHit(c, s, image, speakerType, descriptionType);
    } else {
      DescribeCacheMiss(c, s, image, speakerType, descriptionType);
    }
  }

  /**
   * Repeating a successful request with a non-empty description answers the same, changes
   * nothing and invokes neither collaborator.
   */
  lemma DescribeIdempotent(c: Collaborators, s: Store, image: Bytes, speakerType: string, descriptionType: string)
    requires var first := Describe(c, s, image, speakerType, descriptionType);
      first.response.Described? && first.response.description != ""
    ensures var first := Describe(c, s, image, speakerType, descriptionType);
      Describe(c, first.store, image, speakerType, descriptionType) == DescribeStep(first.store, first.response, false, false)
  {
    var first := Describe(c, s, image, speakerType, descriptionType);
    DescribeStoresDescription(c, s, image, speakerType, descriptionType);
    DescribeAudio(c, s, image, speakerType, descriptionType);
    DescribeCacheHit(c, first.store, image, speakerType, descriptionType);
    CachedAfterRepair(first.store.keyspace, c.digest(image), descriptionType);
  }

  /** An empty caption is stored but never counts as cached: the next request captions again. */
  lemma EmptyDescriptionIsRecaptioned(c: Collaborators, s: Store, image: Bytes, speakerType: string, descriptionType: string)
    requires var first := Describe(c, s, image, speakerType, descriptionType);
      first.response.Described? && first.response.description == ""
    ensures var first := Describe(c, s, image, speakerType, descriptionType);
      Describe(c, first.store, image, speakerType, descriptionType).captioned
  {
    var first := Describe(c, s, image, speakerType, descriptionType);
    DescribeStoresDescription(c, s, image, speakerType, descriptionType);
    DescribeCacheMiss(c, first.store, image, speakerType, descriptionType);
  }

  // ---------------------------------------------------------------------------
  // The audio endpoint
  // ---------------------------------------------------------------------------

  /** An existing file is served as it is, whatever the keyspace holds, and nothing changes. */
  lemma ServeExisting(c: Collaborators, s: Store, filename: string, other: Keyspace)
    requires filename in s.audio
    ensures var step := ServeAudio(c, s, filename);
      && step.store == s && !step.keyspaceRead && !step.synthesized
      && step.response == AudioFile(AudioPath(filename), s.audio[filename])
      && ServeAudio(c, Store(other, s.audio), filename).response == step.response
  {
  }

  /** A missing file with no usable cached text for its parsed (hash, variant) is a 404 and creates nothing. */
  lemma ServeMissingWithoutDescription(c: Collaborators, s: Store, filename: string)
    requires filename !in s.audio
    requires var key := ParseAudioName(filename);
      !IsHit(StoredDescription(s.keyspace, key.imageHash, key.descriptionType))
    ensures ServeAudio(c, s, filename) == ServeStep(s, NotFound(AudioNotFoundMessage(filename)), true, false)
  {
    var key := ParseAudioName(filename);
    HGetHit(s.keyspace, key.imageHash, key.descriptionType);
  }

  /**
   * A missing file whose parsed (hash, variant) has cached text is resynthesized from that
   * text with the female speaker, whatever speaker the name encodes, and written at exactly
   * the requested name; a TTS failure is a 404 that creates nothing.
   */
  lemma ServeRegenerates(c: Collaborators, s: Store, filename: string)
    requires filename !in s.audio
    requires var key := ParseAudioName(filename);
      IsHit(StoredDescription(s.keyspace, key.imageHash, key.descriptionType))
    ensures var key := ParseAudioName(filename);
      var text := StoredDescription(s.keyspace, key.imageHash, key.descriptionType).value;
      var step := ServeAudio(c, s, filename);
      && step.synthesized
      && (match c.synthesize(TtsModel, FemaleSpeaker, text)
          case Some(wav) =>
            step.store == Store(s.keyspace, s.audio[filename := wav]) && step.response == AudioFile(AudioPath(filename), wav)
          case None =>
            step.store == s && step.response == NotFound(AudioNotFoundMessage(filename)))
  {
    var key := ParseAudioName(filename);
    HGetHit(s.keyspace, key.imageHash, key.descriptionType);
    DefaultVoiceIsFemale();
  }

  /**
   * The audio endpoint never writes Redis and never touches a file other than the requested
   * one; it answers with a file exactly when that file exists afterwards, and with its content.
   */
  lemma ServeFrame(c: Collaborators, s: Store, filename: string)
    ensures var step := ServeAudio(c, s, filename);
      && step.store.keyspace == s.keyspace
      && (forall g :: g != filename ==> (g in step.store.audio <==> g in s.audio))
      && (forall g :: g != filename && g in s.audio ==> step.store.audio[g] == s.audio[g])
      && (step.response.AudioFile? <==> filename in step.store.audio)
      && (step.response.AudioFile? ==>
            step.response.path == AudioPath(filename) && step.response.content == step.store.audio[filename])
  {
  }

  /**
   * Self-healing: after a successful describe whose variant holds no "_", deleting its audio
   * file out of band and then requesting it resynthesizes the file at the same name from the
   * cached description, in the female voice.
   */
  lemma SelfHealing(c: Collaborators, s: Store, image: Bytes, speakerType: string, descriptionType: string)
    requires Separator !in descriptionType
    requires var first := Describe(c, s, image, speakerType, descriptionType);
      first.response.Described? && first.response.description != ""
    ensures var first := Describe(c, s, image, speakerType, descriptionType);
      var f := AudioFilename(c.digest(image), descriptionType, speakerType);
      var healed := ServeAudio(c, Store(first.store.keyspace, first.store.audio - {f}), f);
      match c.synthesize(TtsModel, FemaleSpeaker, first.response.description)
      case Some(wav) => healed.response == AudioFile(AudioPath(f), wav) && healed.store.audio[f] == wav
      case None => healed.response == NotFound(AudioNotFoundMessage(f))
  {
    var first := Describe(c, s, image, speakerType, descriptionType);
    DescribeStoresDescription(c, s, image, speakerType, descriptionType);
    RegenerateDeleted(c, first.store, c.digest(image), descriptionType, speakerType, first.response.description);
  }

  /** A deleted file whose hash and variant have cached text is rebuilt from that text in the female voice. */
  lemma RegenerateDeleted(c: Collaborators, s: Store, imageHash: Digest, descriptionType: string, speakerType: string,
                          text: string)
    requires Separator !in descriptionType && text != ""
    requires StoredDescription(s.keyspace, imageHash, descriptionType) == Some(text)
    ensures var f := AudioFilename(imageHash, descriptionType, speakerType);
      var healed := ServeAudio(c, Store(s.keyspace, s.audio - {f}), f);
      match c.synthesize(TtsModel, FemaleSpeaker, text)
      case Some(wav) => healed.response == AudioFile(AudioPath(f), wav) && healed.store.audio[f] == wav
      case None => healed.response == NotFound(AudioNotFoundMessage(f))
  {
    var f := AudioFilename(imageHash, descriptionType, speakerType);
    DigestHasNoUnderscore(imageHash);
    ParseFormatRoundTrip(imageHash, descriptionType, speakerType);
    var deleted := Store(s.keyspace, s.audio - {f});
    assert f !in deleted.audio;
    ServeRegenerates(c, deleted, f);
  }

  /** A request for audio of an image and variant that were never described is a 404 and changes nothing. */
  lemma ServeNeverDescribed(c: Collaborators, s: Store, imageHash: Digest, descriptionType: string, speakerType: string)
    requires Separator !in descriptionType
    requires StoredDescription(s.keyspace, imageHash, descriptionType).None?
    requires AudioFilename(imageHash, descriptionType, speakerType) !in s.audio
    ensures var f := AudioFilename(imageHash, descriptionType, speakerType);
      ServeAudio(c, s, f) == ServeStep(s, NotFound(AudioNotFoundMessage(f)), true, false)
  {
    DigestHasNoUnderscore(imageHash);
    ParseFormatRoundTrip(imageHash, descriptionType, speakerType);
    ServeMissingWithoutDescription(c, s, AudioFilename(imageHash, descriptionType, speakerType));
  }
}
