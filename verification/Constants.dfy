/** The pinned limits and tolerances the gates and scores are stated against (bench-core, constants.rs). */
module Constants {
  const VOCAB_SIZE := 262144
  const TOP_LOGITS := 8
  const TIE_TOLERANCE := 0.000001

  const MAX_ANCHOR_CONTEXT_TOKENS := 1024
  const MAX_FREE_RUN_STEPS := 256
  const MAX_BEHAVIOR_PROMPT_TOKENS := 2048
  const MAX_BEHAVIOR_STEPS := 64

  const PREFILL_PROMPT_TOKENS := 1024
  const DECODE_SEED_TOKENS := 1024
  const DECODE_STEPS := 128

  const DECODE_FLOOR := 0.95
  const PREFILL_FLOOR := 0.95
  const PREFILL_UP := 0.03
  const PREFILL_DOWN := 0.03
  const DECODE_UP := 0.01
  const DECODE_DOWN := 0.025

  const PAIRED_FLOOR := 0.90
  const PAIRED_CEILING := 5.0
  const PER_PAIR_BOUND := 8.0
}
