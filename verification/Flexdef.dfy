/** The compile-time constants of flexdef.h that the model uses. */
module Flexdef {
  const CSIZE := 256
  const SYM_EPSILON := CSIZE + 1

  const NO_TRANSITION := 0
  const INFINITY := -1
  const MAX_RULE := 0x2000 - 1
  const INITIAL_MAX_CCLS := 100
  const MAX_CCLS_INCREMENT := 100
  const INITIAL_MAX_CCL_TBL_SIZE := 500
  const MAX_CCL_TBL_SIZE_INCREMENT := 250
  const INITIAL_MNS := 2000
  const MNS_INCREMENT := 1000
  const MAXIMUM_MNS := 31999
  const MOST_STATES := MAXIMUM_MNS - MNS_INCREMENT // the arrays are never enlarged to MAXIMUM_MNS entries or more
  const MARKER_DIFFERENCE := MAXIMUM_MNS + 2
  const INITIAL_MAX_DFA_SIZE := 750
  const MAX_DFA_SIZE_INCREMENT := 750
  const INITIAL_MAX_DFAS := 1000

  // table compression
  const JAMSTATE := -32766
  const SAME_TRANS := -1
  const MSP := 50
  const PROT_SAVE_SIZE := 2000
  const ONE_STACK_SIZE := 500
  const INITIAL_MAX_XPAIRS := 2000
  const MAX_XPAIRS_INCREMENT := 2000
  const INITIAL_MAX_TEMPLATE_XPAIRS := 2500
  const MAX_TEMPLATE_XPAIRS_INCREMENT := 2500
  const MAX_DFAS_INCREMENT := 1000

  // full-speed tables
  const MAX_XTIONS_FULL_INTERIOR_FIT := 4
  const EOB_POSITION := -1
  const ACTION_POSITION := -2

  const PROTO_SIZE_PERCENTAGE := 15
  const CHECK_COM_PERCENTAGE := 50
  const FIRST_MATCH_DIFF_PERCENTAGE := 10
  const ACCEPTABLE_DIFF_PERCENTAGE := 50
  const TEMPLATE_SAME_PERCENTAGE := 60
  const NEW_PROTO_DIFF_PERCENTAGE := 20
  const INTERIOR_FIT_PERCENTAGE := 15
}
