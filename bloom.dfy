/**
 * The dedup filter the job holds (`bloom_filter.BloomFilter`, whose code is
 * not part of this model), reduced to its `check_bloom_filter` contract:
 * report whether the text was recorded before, and record it. The model
 * keeps the exact set of recorded texts, so it answers without false
 * positives.
 */
module Bloom {
  import opened Values

  class BloomFilter {
    /** The texts recorded so far. */
    var seen: set<Value>

    constructor ()
      ensures seen == {}
    {
      seen := {};
    }

    /** `check_bloom_filter(text)`: was `text` recorded before? Records it either way. */
    method CheckBloomFilter(text: Value) returns (present: bool)
      modifies this
      ensures present <==> text in old(seen)
      ensures seen == old(seen) + {text}
    {
      present := text in seen;
      seen := seen + {text};
    }
  }
}
