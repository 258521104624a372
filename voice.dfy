/** Voice selection for the speech synthesizer (get_tts_model_and_speaker). */
module Voice {

  /** The one Coqui TTS model the service loads. */
  const TtsModel: string := "tts_models/en/vctk/vits"

  /** VCTK speaker id used for the female voice. */
  const FemaleSpeaker: string := "p270"

  /** VCTK speaker id used for the male voice. */
  const MaleSpeaker: string := "p317"

  /** Lower-case mapping of one character on the ASCII letters. */
  function LowerChar(c: char): char {
    if 'A' <= c <= 'Z' then (c as int + 32) as char else c
  }

  /** `str.lower`, character by character. */
  function ToLower(s: string): (r: string)
    ensures |r| == |s|
    ensures forall i :: 0 <= i < |s| ==> r[i] == LowerChar(s[i])
  {
    if s == [] then [] else [LowerChar(s[0])] + ToLower(s[1..])
  }

  /** Reference definition: `s` and `t` agree when every letter is compared without case. */
  predicate EqualsIgnoringCase(s: string, t: string) {
    |s| == |t| && forall i :: 0 <= i < |s| ==> LowerChar(s[i]) == LowerChar(t[i])
  }

  /** The (model, speaker) pair chosen for a requested `speaker_type`. */
  function TtsModelAndSpeaker(speakerType: string): (r: (string, string))
    ensures r.0 == TtsModel
    ensures r.1 == FemaleSpeaker || r.1 == MaleSpeaker
  {
    if ToLower(speakerType) == "female" then (TtsModel, FemaleSpeaker) else (TtsModel, MaleSpeaker)
  }

  /** "female" in any letter case selects p270; every other string selects p317. */
  lemma FemaleInAnyCase(speakerType: string)
    ensures TtsModelAndSpeaker(speakerType).1 == FemaleSpeaker <==> EqualsIgnoringCase(speakerType, "female")
    ensures TtsModelAndSpeaker(speakerType).1 == MaleSpeaker <==> !EqualsIgnoringCase(speakerType, "female")
  {
    var lower := ToLower(speakerType);
    if EqualsIgnoringCase(speakerType, "female") {
      assert forall i :: 0 <= i < |lower| ==> lower[i] == "female"[i];
      assert lower == "female";
    }
  }

  /** The regeneration path of the audio endpoint asks for "female" and gets p270. */
  lemma DefaultVoiceIsFemale()
    ensures TtsModelAndSpeaker("female") == (TtsModel, FemaleSpeaker)
  {
    assert ToLower("female") == "female";
  }
}
