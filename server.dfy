/**
 * The service as a stateful object: the Redis keyspace and the audio directory are
 * fields the two endpoint methods update step by step, as the handlers do. Each method
 * is proved to produce exactly the state and response of its specification function.
 */
module Server {
  import opened Basics
  import opened Voice
  import opened Generation
  import opened AudioNames
  import opened Redis
  import opened Workflow

  class Backend {
    /** The foreign code, fixed when the process starts. */
    const collaborators: Collaborators

    /** The Redis database the handlers read and write. */
    var keyspace: Keyspace

    /** The files of the audio directory, by filename. */
    var audio: map<string, Bytes>

    /** How many times the captioner and the synthesizer have been invoked. */
    ghost var captionCalls: nat
    ghost var synthesisCalls: nat

    /**
     * Redis's own invariant that no hash is empty: the constructor establishes it and every
     * handler, and the audio step of the describe handler, requires and keeps it.
     */
    ghost predicate Valid()
      reads this
    {
      WellFormed(keyspace)
    }

    function State(): Store
      reads this
    {
      Store(keyspace, audio)
    }

    /** Start-up over whatever the previous process left in Redis and on disk. */
    constructor (c: Collaborators, initialKeyspace: Keyspace, initialAudio: map<string, Bytes>)
      requires WellFormed(initialKeyspace)
      ensures Valid()
      ensures collaborators == c && keyspace == initialKeyspace && audio == initialAudio
      ensures captionCalls == 0 && synthesisCalls == 0
    {
      collaborators := c;
      keyspace := initialKeyspace;
      audio := initialAudio;
      captionCalls := 0;
      synthesisCalls := 0;
    }

    /** POST /describe-image/ */
    method DescribeImage(image: Bytes, speakerType: string, descriptionType: string) returns (r: DescribeResponse)
      requires Valid()
      modifies this
      ensures Valid()
      ensures var step := Describe(collaborators, old(State()), image, speakerType, descriptionType);
        && State() == step.store && r == step.response
        && captionCalls == old(captionCalls) + (if step.captioned then 1 else 0)
        && synthesisCalls == old(synthesisCalls) + (if step.synthesized then 1 else 0)
    {
      ghost var before := State();
      DescribePreservesWellFormed(collaborators, before, image, speakerType, descriptionType);
      var imageHash := collaborators.digest(image);

      var keyType := Type(keyspace, imageHash);
      if keyType != "hash" && keyType != "none" {
        keyspace := Delete(keyspace, imageHash);
      }

      assert keyspace == RepairKeyType(before.keyspace, imageHash);
      var cachedDescription := CachedDescription(keyspace, imageHash, descriptionType);
      var audioFilename := AudioFilename(imageHash, descriptionType, speakerType);

      var description: string;
      if !IsHit(cachedDescription) {
        var initialDescription := collaborators.caption(image, GenerationArgsFor(descriptionType));
        captionCalls := captionCalls + 1;
        if initialDescription.None? {
          return InternalServerError;
        }
        var refinedDescription := RefineDescription(image, initialDescription.value);
        keyspace := HSet(keyspace, imageHash, descriptionType, refinedDescription).value;
        description := refinedDescription;
        assert Describe(collaborators, before, image, speakerType, descriptionType)
            == ProduceAudio(collaborators, Store(keyspace, audio), image, speakerType, audioFilename, description, true);
      } else {
        description := cachedDescription.value;
        assert Describe(collaborators, before, image, speakerType, descriptionType)
            == ProduceAudio(collaborators, Store(keyspace, audio), image, speakerType, audioFilename, description, false);
      }

      r := ProduceAudioFile(image, speakerType, audioFilename, description, !IsHit(cachedDescription));
    }

    /** The second half of the describe handler: synthesize the file only if it is absent, then answer. */
    method ProduceAudioFile(image: Bytes, speakerType: string, audioFilename: string, description: string,
                            ghost captioned: bool) returns (r: DescribeResponse)
      requires Valid()
      modifies this
      ensures Valid()
      ensures var step := ProduceAudio(collaborators, old(State()), image, speakerType, audioFilename, description, captioned);
        && State() == step.store && r == step.response
        && captionCalls == old(captionCalls)
        && synthesisCalls == old(synthesisCalls) + (if step.synthesized then 1 else 0)
    {
      if audioFilename !in audio {
        var (model, speaker) := TtsModelAndSpeaker(speakerType);
        var wav := collaborators.synthesize(model, speaker, description);
        synthesisCalls := synthesisCalls + 1;
        if wav.None? {
          return InternalServerError;
        }
        audio := audio[audioFilename := wav.value];
      }
      r := Described(description, AudioUrl(audioFilename), ImageUrl(image));
    }

    /** GET /audio/{filename} */
    method GetAudio(filename: string) returns (r: AudioResponse)
      requires Valid()
      modifies this
      ensures Valid()
      ensures var step := ServeAudio(collaborators, old(State()), filename);
        && State() == step.store && r == step.response
        && captionCalls == old(captionCalls)
        && synthesisCalls == old(synthesisCalls) + (if step.synthesized then 1 else 0)
    {
      var filePath := AudioPath(filename);
      if filename in audio {
        return AudioFile(filePath, audio[filename]);
      }

      var key := ParseAudioName(filename);
      var cachedDescription := HGet(keyspace, key.imageHash, key.descriptionType);
      if cachedDescription.WrongType? || !IsHit(cachedDescription.value) {
        return NotFound(AudioNotFoundMessage(filename));
      }

      var (model, speaker) := TtsModelAndSpeaker("female");
      var wav := collaborators.synthesize(model, speaker, cachedDescription.value.value);
      synthesisCalls := synthesisCalls + 1;
      if wav.None? {
        return NotFound(AudioNotFoundMessage(filename));
      }
      audio := audio[filename := wav.value];
      r := AudioFile(filePath, wav.value);
    }
  }
}
