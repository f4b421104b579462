/** HEVC NAL unit types (Table 7-1 of ITU-T H.265) and their classes. */
module NalTypes {
  const RADL_N: nat := 6
  const RADL_R: nat := 7
  const RASL_N: nat := 8
  const RASL_R: nat := 9
  const IDR_W_RADL: nat := 19
  const IDR_N_LP: nat := 20

  /** A slice of coded picture data. */
  predicate IsVcl(nalType: nat) {
    nalType <= 31
  }

  predicate IsIrap(nalType: nat) {
    16 <= nalType <= 23
  }

  predicate IsIdr(nalType: nat) {
    nalType == IDR_W_RADL || nalType == IDR_N_LP
  }

  predicate IsBla(nalType: nat) {
    16 <= nalType <= 18
  }

  predicate IsRaslOrRadl(nalType: nat) {
    nalType == RASL_N || nalType == RASL_R || nalType == RADL_N || nalType == RADL_R
  }
}
