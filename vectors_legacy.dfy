/**
 * The header-only legacy vector of src/vectors.h. Its ASF_IMPL bodies are the
 * functions of src/vector.c line for line (on a record named AsfVector), so the
 * members of module Vector model both. What differs is how the header names
 * its error codes: plain macros, with no name for success (0) and
 * ASFVECERR for the unknown error.
 */
module VectorsLegacy {
  import opened Vector

  /** The value each int-returning function of vectors.h gives for an outcome. */
  function LegacyCode(e: AsfVecErr): (c: int)
    ensures c == Code(e)
    ensures c < 0 <==> e != Ok
  {
    match e
    case Ok => 0
    case Unknown => -1      // ASFVECERR
    case Memory => -2       // ASFVECERR_MEMORY
    case CantGrow => -3     // ASFVECERR_CANT_GROW
  }
}
