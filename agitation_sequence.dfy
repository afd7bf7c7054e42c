/** The static recipe a program is built from. agitation_sequence.hpp is
 *  not part of this model; these types carry exactly the fields the loader
 *  and the process interpreter read. A pointer-and-length pair of the
 *  source is a sequence here. */
module AgitationSequence {
  import opened Movement

  /** AgitationMovementType. The enum is a C enum, so a recipe may hold a
   *  value outside the five named ones; `Unknown` stands for those. */
  datatype RecipeKind =
    | TypeCW | TypeCCW | TypePause | TypeLoop | TypeWaitUser
    | Unknown(code: int)

  /** The loop part of a recipe node: the body, the iteration count and
   *  the duration bound (0 means unbounded for both). */
  datatype LoopRecipe = LoopRecipe(sequence: seq<RecipeNode>, count: U32, maxDuration: U32)

  /** AgitationMovementStatic: one recipe node. `loop` is read only for
   *  loop nodes. */
  datatype RecipeNode = RecipeNode(kind: RecipeKind, duration: U32, loop: LoopRecipe)

  /** A temperature. The model stores and copies temperatures and does no
   *  arithmetic on them. */
  type Temperature = real

  /** One character of a C string: a byte, and never the terminating NUL.
   *  A `CString` is the bytes before the NUL, so its length is what
   *  strlen returns and a cut to n characters is a cut to n bytes. */
  type CChar = c: char | 0 < c as int < 256 witness 'a'
  type CString = seq<CChar>

  /** AgitationStepStatic: a named step with its target temperature and
   *  its movement recipe. */
  datatype StepStatic = StepStatic(name: CString, temperature: Temperature, sequence: seq<RecipeNode>)

  /** AgitationProcessStatic: a named process with its default temperature
   *  and its steps. */
  datatype ProcessStatic = ProcessStatic(processName: CString, filmType: CString,
                                         temperature: Temperature, steps: seq<StepStatic>)
}
