/** Caption-generation parameters handed to the BLIP model for each description variant. */
module Generation {

  /** The keyword arguments of `blip_model.generate` that the service sets. */
  datatype GenerationArgs = GenerationArgs(
    maxLength: nat,
    minLength: nat,
    numBeams: nat,
    noRepeatNgramSize: nat,
    earlyStopping: bool)

  /** Variant "detailed" asks for long beam-searched captions; every other variant for short greedy ones. */
  function GenerationArgsFor(descriptionType: string): (g: GenerationArgs)
    ensures g.noRepeatNgramSize == 2 && g.earlyStopping
    ensures 1 <= g.numBeams && g.minLength <= g.maxLength
    ensures descriptionType == "detailed" ==> g.maxLength == 150 && g.minLength == 40 && g.numBeams == 5
    ensures descriptionType != "detailed" ==> g.maxLength == 40 && g.minLength == 8 && g.numBeams == 1
  {
    var detailed := descriptionType == "detailed";
    GenerationArgs(
      maxLength := if detailed then 150 else 40,
      minLength := if detailed then 40 else 8,
      numBeams := if detailed then 5 else 1,
      noRepeatNgramSize := 2,
      earlyStopping := true)
  }
}
