# Visual search assistant: the memoising describe / serve-audio workflow

The backend of this service turns an uploaded image into a spoken description. The
`POST /describe-image/` handler does five things in order. It hashes the image with md5. It
repairs the Redis key of that hash if the key holds a value of the wrong type. It looks up the
description cached for the requested variant ("detailed", "simplified", ...). It captions the
image only on a cache miss and stores the caption in that hash field. Last, it synthesizes the
file `<hash>_<variant>_<speaker>_audio.wav` only if that file is not already in the audio
directory. The `GET /audio/{filename}` handler serves that file. If the file is missing, it
splits the name on `_`, reads the cached text for the parsed hash and variant, and writes the
file again in the female voice. If that fails it answers 404.

The model has eight modules, one per concern of `backend/main.py`:

- `Basics`: bytes and `Option`.
- `Voice`: `get_tts_model_and_speaker`, with `str.lower` on ASCII letters.
- `Generation`: the BLIP `generation_args` chosen for each variant.
- `Digests`: the md5 hex digest as a type (32 characters in 0-9 and a-f), and `bytes.hex()` with its inverse.
- `AudioNames`: the filename format, `str.split`, `str.join`, and the parse in the audio handler.
- `Redis`: the keyspace as a map from key to entry (a hash of fields, or a value of another Redis type), with TYPE, DEL, HGETALL, HGET and HSET. HGETALL, HGET and HSET fail with WRONGTYPE on a key of another type.
- `Workflow`: the two endpoints as pure functions. `Describe` and `ServeAudio` take the persistent state (`Store`: keyspace plus audio directory) and return the new state, the response, and which collaborators ran. All the properties are lemmas about these two functions.
- `Server`: class `Backend`. Its `keyspace` and `audio` fields are changed step by step by `DescribeImage` (with its audio step `ProduceAudioFile`) and `GetAudio`. Each method is proved to end in exactly the state and response of its specification function. Ghost counters record how often the captioner and the synthesizer ran.

The foreign code is passed in as function values, in a `Collaborators` record given to the
`Backend` constructor:

- md5: a function from bytes to `Digest`. Being a function, it is deterministic.
- Captioning: a function from the image and the generation arguments to an optional caption. It stands for the whole of `backend/main.py:103-121`: opening the image, BLIP generation and decoding, and the CLIP forward pass of the refinement step. `None` stands for any of them raising. One example is a long "detailed" caption that exceeds CLIP's text context, since no truncation is set. Every such failure comes before the HSET at line 122 and ends in the 500.
- Coqui TTS: a function from model, speaker and text to optional wav bytes.

The CLIP refinement step runs the CLIP model but returns its input text unchanged
(`backend/main.py:70`). The text it hands on is modelled as the caption itself.

Notes on the source's behaviour:

- The audio endpoint answers with a plain `FileResponse` and sets no cache headers.
- The voice selector is any string. It selects p270 when it lower-cases to "female" and p317 otherwise. The raw string, not the chosen voice, goes into the filename.
- The audio endpoint answers 404 for every failure: no cached text, a key of the wrong type, or TTS failing. The describe endpoint answers 500 for every failure.
- There is no per-key locking. The model treats each request as one atomic step.
- A cached description that is empty counts as a miss. So an empty caption is stored but recomputed on every later request (`EmptyDescriptionIsRecaptioned`).

The filename format is ambiguous when a variant or speaker string contains `_`.
`UnderscoredVariantIsCutShort` shows the audio handler reading variant "very" from a file made
for "very_detailed". `FilenameCollision` shows two different (variant, speaker) pairs that name
the same file. The round trip `ParseFormatRoundTrip` holds when the variant contains no `_`. The
hash never does (`DigestHasNoUnderscore`).

## Model

| member | source | states |
|---|---|---|
| `Voice.ToLower` | backend/main.py:55 | the lower-cased string has the same length and lower-cases each character in place |
| `Voice.TtsModelAndSpeaker` | backend/main.py:54-60 | the model is always "tts_models/en/vctk/vits" and the speaker is always p270 or p317 |
| `Voice.FemaleInAnyCase` | backend/main.py:54-60 | the speaker is p270 exactly when the input equals "female" ignoring letter case, and p317 exactly otherwise |
| `Voice.DefaultVoiceIsFemale` | backend/main.py:162 | the regeneration path's fixed input "female" selects the model with speaker p270 |
| `Generation.GenerationArgsFor` | backend/main.py:106-113 | "detailed" gives max 150, min 40, 5 beams; any other variant gives max 40, min 8, 1 beam; always no-repeat-ngram 2 and early stopping; min never exceeds max |
| `Digests.DigestHasNoUnderscore` | backend/main.py:63-64 | an md5 hex digest contains no "_" |
| `Digests.Hex` | backend/main.py:137 | the hex text of the image has two characters per byte, all in 0-9 and a-f |
| `Digests.Unhex` | backend/main.py:137 | reading hex text two digits at a time gives half as many bytes as digits |
| `Digests.UnhexHex` | backend/main.py:137 | the hex text of the image decodes back to the image, so distinct images get distinct image URLs |
| `AudioNames.AudioFilename` | backend/main.py:97 | the name is the hash, "_", the variant, "_", the speaker and "_audio.wav", at the positions given by their lengths |
| `AudioNames.AudioUrl` | backend/main.py:136 | the audio URL is "/audio/" followed by the filename |
| `AudioNames.AudioPath` | backend/main.py:98 | the file path is the filename inside the "audio" directory |
| `AudioNames.Split` | backend/main.py:154 | splitting yields at least one piece, no piece contains the separator, and joining the pieces with the separator gives back the input |
| `AudioNames.SplitWithoutSeparator` | backend/main.py:154 | a string without the separator splits into itself alone |
| `AudioNames.SplitAfterPrefix` | backend/main.py:154 | a separator-free head before the first separator is the first piece, and the rest splits independently |
| `AudioNames.SplitJoin` | backend/main.py:154 | splitting undoes joining when no piece contains the separator |
| `AudioNames.ParseAudioName` | backend/main.py:154-156 | the parsed hash is a separator-free prefix of the name; a name with no "_" parses as itself with variant "detailed"; otherwise the hash is followed by "_" and the variant is the separator-free run right after it, ending at the next "_" or at the end of the name |
| `AudioNames.ParseFormatRoundTrip` | backend/main.py:154-156 | a name built as at line 97 from a hash and a variant without "_" parses back to that hash and that variant, whatever the speaker |
| `AudioNames.UnderscoredVariantIsCutShort` | backend/main.py:154-156 | the name built for variant "very_detailed" parses with variant "very" |
| `AudioNames.SpeakerIsolation` | backend/main.py:97 | two different speaker strings give two different filenames for the same hash and variant |
| `AudioNames.FilenameCollision` | backend/main.py:97 | variant "a_b" with speaker "female" and variant "a" with speaker "b_female" name the same file |
| `Redis.TypeName` | backend/main.py:89-90 | the type name of a non-hash value is neither "hash" nor "none" |
| `Redis.Type` | backend/main.py:89 | TYPE is "none" exactly for a missing key and "hash" exactly for a key holding a hash |
| `Redis.Delete` | backend/main.py:91 | DEL removes the key, keeps every other key and its value, adds none, and keeps hashes non-empty |
| `Redis.HGetAll` | backend/main.py:95 | HGETALL fails with WRONGTYPE exactly on a non-hash key, reads an empty map for a missing key, and reads the field map of a hash |
| `Redis.HGet` | backend/main.py:158 | HGET fails exactly when HGETALL does, and otherwise reads the field's value or nothing |
| `Redis.HSet` | backend/main.py:122 | HSET fails exactly on a non-hash key; otherwise the field reads the new value, every other field of the key reads as before, the key set gains only this key, other keys keep their values, and hashes stay non-empty |
| `Workflow.RefineDescription` | backend/main.py:66-71 | the refinement hands back the BLIP caption unchanged |
| `Workflow.ImageUrl` | backend/main.py:137 | the image URL is the data-URL prefix followed by hex text, two characters per image byte |
| `Workflow.ImageUrlDeterminesImage` | backend/main.py:137 | the text after the prefix of the image URL is hex that decodes back to the image |
| `Workflow.CachedDescription` | backend/main.py:95-96 | the cached description is present exactly when HGETALL's map has the variant, and is then that field's value |
| `Workflow.Describe` | backend/main.py:73-142 | the describe endpoint can create only its own audio file, synthesizes only when that file was absent, and on success answers with that file's URL and leaves the file present |
| `Workflow.ProduceAudio` | backend/main.py:126-138 | the audio step keeps Redis as it was, can create only the named file, synthesizes exactly when the file was absent, and on success answers with the given text and the file's URL |
| `Workflow.ServeAudio` | backend/main.py:144-173 | the audio endpoint never changes Redis, can create only the requested file, answers with a file exactly when that file exists afterwards, and without a Redis read changes nothing |
| `Workflow.RepairKeyType` | backend/main.py:89-92 | after the repair the key's TYPE is "hash" or "none" |
| `Workflow.RepairKeyTypeSpec` | backend/main.py:89-92 | a key of another type is deleted; a hash or a missing key leaves the keyspace untouched; a well-formed keyspace stays well formed |
| `Workflow.StoredAfterRepair` | backend/main.py:89-92 | the repair changes no stored description of any key |
| `Workflow.CachedAfterRepair` | backend/main.py:95-96 | HGETALL and `.get` after the repair read exactly the text stored for (hash, variant), with a non-hash key reading as absent |
| `Workflow.HGetHit` | backend/main.py:158-160 | HGET yields usable text exactly when non-empty text is stored for (hash, variant), and then yields that text; WRONGTYPE and absence both count as no text |
| `Workflow.WriteDescription` | backend/main.py:122 | writing one description on a hash or missing key sets that field, keeps every other stored description and key |
| `Workflow.RepairThenWrite` | backend/main.py:89-122 | repair followed by HSET: the key is a hash whose field (hash, variant) holds the text, other variants read as in the original keyspace, other keys unchanged |
| `Workflow.DescribeMissUnfold` | backend/main.py:101-123 | on a miss whose caption succeeds, the request stores the caption and continues with the audio step using that caption |
| `Workflow.ProduceAudioKeepsText` | backend/main.py:126-138 | the audio step never touches Redis and answers with the description it was given |
| `Workflow.DescribeCacheHit` | backend/main.py:95-101 | on a hit (non-empty stored text) the keyspace is unchanged, the captioner is not invoked and the returned description is the stored text |
| `Workflow.CacheHitIgnoresCaptioner` | backend/main.py:101 | on a hit, replacing the captioner by any other function changes neither the state nor the response |
| `Workflow.DescribeCaptionFails` | backend/main.py:101-142 | on a miss with a failing captioner the answer is a 500, the audio directory is unchanged and only the key-type repair persists |
| `Workflow.DescribeCacheMiss` | backend/main.py:101-123 | on a miss, the captioner runs and only field (hash, variant) is set, to the caption, which is what is returned; other variants of the hash and all other keys are unchanged |
| `Workflow.DescribeAudio` | backend/main.py:97-136 | the URL is "/audio/" + hash_variant_speaker_audio.wav; the file exists afterwards exactly when it existed or the request succeeded; an existing file is neither rewritten nor resynthesized; a new one holds the TTS output for the returned text in the requested voice; no other file changes |
| `Workflow.DescribePreservesWellFormed` | backend/main.py:89-131 | the describe endpoint leaves no empty hash in the keyspace |
| `Workflow.DescribeStoresDescription` | backend/main.py:95-123 | after a successful describe the text stored for (hash, variant) is the description returned |
| `Workflow.DescribeIdempotent` | backend/main.py:85-138 | repeating a successful request whose description is non-empty gives the same response, changes nothing and invokes neither the captioner nor TTS |
| `Workflow.EmptyDescriptionIsRecaptioned` | backend/main.py:101 | after a successful describe with an empty description the next identical request captions again |
| `Workflow.ServeExisting` | backend/main.py:148-151 | an existing file is returned as it is, nothing changes, neither Redis nor TTS is used, and the response is the same for every keyspace |
| `Workflow.ServeMissingWithoutDescription` | backend/main.py:153-173 | a missing file with no usable text for its parsed (hash, variant) gets the 404 message, no file is created and TTS is not invoked |
| `Workflow.ServeRegenerates` | backend/main.py:153-173 | a missing file with cached text is synthesized from that text with speaker p270 whatever the name encodes, and written at exactly the requested name; a TTS failure gives the 404 and creates nothing |
| `Workflow.ServeFrame` | backend/main.py:144-173 | the audio endpoint never writes Redis or any file but the requested one, and answers with a file exactly when that file exists afterwards, with its content and path audio/filename |
| `Workflow.RegenerateDeleted` | backend/main.py:153-166 | when non-empty text is stored for a hash and a variant free of "_", deleting their file and requesting it rebuilds that name from the text with speaker p270 |
| `Workflow.SelfHealing` | backend/main.py:97-166 | after a successful describe with a variant free of "_", deleting its file and requesting it regenerates the same name from the cached description in the female voice |
| `Workflow.ServeNeverDescribed` | backend/main.py:153-173 | requesting the file of an image and variant never described gives the 404 and changes nothing |
| `Server.Backend.constructor` | backend/main.py:35-52 | the service starts over the keyspace and audio directory left by earlier runs, with no collaborator calls yet |
| `Server.Backend.DescribeImage` | backend/main.py:73-142 | the handler's step-by-step updates of keyspace and audio directory end in exactly the state and response of `Describe`, and the call counters grow by the collaborators it invoked |
| `Server.Backend.ProduceAudioFile` | backend/main.py:126-138 | the handler's audio step ends in exactly the state and response of `ProduceAudio`, without captioning, and counts a synthesis exactly when the file was absent; it keeps Redis's no-empty-hash invariant |
| `Server.Backend.GetAudio` | backend/main.py:144-173 | the handler ends in exactly the state and response of `ServeAudio`, never captions, and counts a synthesis exactly when it regenerates |

## Left out

- md5, BLIP captioning, CLIP and Coqui TTS internals are foreign library calls. They are uninterpreted function values. The only assumption about the digest is that it is 32 lower-case hex digits; the determinism of captioning and TTS is a second assumption, stated below.
- Redis connection failures are not modelled. The source maps them to the blanket 500 (describe) or the 404 (audio); the model's keyspace is always reachable.
- The FastAPI routing, multipart parsing, CORS, `dotenv`, logging with timestamps and the `uvicorn` start-up are transport plumbing. The JSON bodies appear only as the response datatypes.
- The source has no concurrency control, and none is modelled. Each request is one atomic step, so duplicated captioning under concurrent identical requests is outside the model.
- A failing TTS call is modelled as writing no file. A partially written wav file from a crash inside `tts_to_file` is not modelled.
- Filenames are keys of the audio-directory map. `os.path.join` is modelled only for plain names; path separators or an absolute name inside a filename are not interpreted.
- `Voice.ToLower`: lower-cases only the ASCII letters, unlike `str.lower`. The comparison with "female" is still exact. The only non-ASCII characters whose lower case holds an ASCII letter are the Kelvin sign (to "k") and capital I with dot (to "i" plus a combining dot), and "female" contains neither letter.
- The captioning and TTS collaborators are deterministic function values: the same inputs always give the same caption, the same failure or the same wav bytes. The source does not promise this. A transient BLIP or TTS failure need not recur, and Coqui VITS samples noise, so a regenerated file is not byte-identical to the one it replaces. `SelfHealing` and `RegenerateDeleted` rely on this: they state the regenerated file as `synthesize` applied to the stored text, which need not equal the bytes written by the earlier request.
- The form defaults `speaker_type="female"` and `description_type="detailed"` (backend/main.py:76-77) are applied by FastAPI before the handler runs. The model takes both strings as given, so a request that omits a field is the request that sends its default.
- The `image_url` field labels hex text as base64. It is modelled as the hex text it really is.
- backend/app.py is not part of this model. It is an earlier prototype with a fixed mp3 filename and no cache.
- frontend/src/App.js is not part of this model. It is React UI state and one HTTP call.
