# Set-associative cache simulator, in Dafny

This project models `CacheSimulator` from `cache.py`. The simulator reads a trace of hexadecimal addresses. It splits each address into tag, set index and block offset. Then it looks the tag up in a set-associative cache, reports hit (`H`) or miss (`M`), and on a miss into a full set evicts a victim chosen by the replacement policy. LRU and LOOKAHEAD evict the tag touched longest ago; MRU evicts the tag touched last.

Modules:

- `Results` (`results.dfy`): the three `ValueError`s the core can raise, as an `Error` value, and a `Result` type.
- `Text` (`text.dfy`):
  - `str.strip()` on the ASCII whitespace characters;
  - `int(s, 16)` on plain digit strings;
  - the upper-case formatting `f"{n:X}"`, with its round trips.
- `Address` (`address.dfy`): `parse_address`.
  - `&` with a mask of `w` one-bits is modelled as `% 2^w`, and `>> w` as `/ 2^w`.
  - This is exact because the parsed address is never negative.
- `Cache` (`cache.dfy`): the cache state, one access and a run over a trace.
  - These are value functions on a `Snapshot` of `(cache, lru_tracker, access_counter)`: `Touch`, `Access`, `RunLine` and `Run`.
  - Lemmas about those functions cover the invariant, hit/miss, locality, resident sets and the victim.
  - The class `CacheSimulator` keeps the source's fields and updates them in place. Each method's `ensures` ties the new state to the value function of the old state.
- `Scenarios` (`scenarios.dfy`): two concrete traces, worked out from the definitions.

The state invariant `Cache.Inv` says:

- `cache[i]` and `lru_tracker[i]` have the same keys;
- no set holds more than `association` tags;
- every cache value (the counter before the tag's insertion) is below the tag's tracker value (the counter at its last touch);
- the tracker value is at most `access_counter`;
- no two resident tags anywhere share a tracker value.

The last point makes the `min`/`max` victim unique. The method `ReplaceEntry` finds the victim with a loop over the keys, and it is proved to pick exactly the victim the value function names.

## Model

| member | source | states |
|---|---|---|
| Text.Strip | cache.py:93 | stripping leaves no whitespace at either end and never lengthens the line |
| Text.StripIsSlice | cache.py:93 | the stripped line is the slice of the input between its leading and trailing whitespace, and everything dropped on either side is whitespace |
| Text.ParseHex | cache.py:26 | `int(s, 16)` succeeds exactly on non-empty strings of hex digits in either case; anything else raises the invalid-literal error |
| Text.ToHex | cache.py:96 | `f"{n:X}"` is a non-empty string of upper-case hex digits, starting with `0` exactly when n is 0, and zero prints as `0` |
| Text.HexRoundTrip | cache.py:96 | parsing the printed hex of n gives back n |
| Text.CanonicalRoundTrip | cache.py:96 | an upper-case digit string without leading zeros is exactly what `f"{n:X}"` prints for its value, so printing is the canonical spelling |
| Address.Log2 | cache.py:29-30 | for a power of two x, the bit count n satisfies 2^n == x |
| Address.TagBits | cache.py:29-31 | tag, index and offset widths add up to the address space, and when the tag width is not negative, 2^tag_bits tags times the sets times the block size is exactly 2^address_space |
| Address.MarkerOptional | cache.py:24-26 | the leading `x` is optional: an address parses to the same result with or without it, and a doubled `xx` is an invalid hex literal |
| Address.Split | cache.py:34-36 | the mask-and-shift fields are within their widths: offset below 2^ob, index below 2^ib, tag below 2^tb |
| Address.SplitAssemble | cache.py:33-36 | the fields shifted back and added reproduce the address modulo 2^(ob+ib+tb) |
| Address.AssembleSplit | cache.py:33-36 | fields within their widths survive assembly and splitting unchanged |
| Address.ParseAddress | cache.py:22-38 | a bad hex literal raises the invalid-literal error; a valid literal raises the negative-shift error exactly when the tag width is negative and parses otherwise, also when the address is wider than the address space; a parsed address has offset < block size, index < number of sets, tag < 2^tag_bits, and its fields reassemble to the address modulo 2^address_space, so wider addresses are truncated silently |
| Address.ParseAddressExact | cache.py:26-36 | an address below 2^address_space with a non-negative tag width parses successfully and is reproduced exactly by its fields |
| Cache.Empty | cache.py:14-20 | the constructed state has the given number of sets, all empty, and a zero counter |
| Cache.NumSets | cache.py:14 | the set count is `num_blocks // association` when that is positive and 0 otherwise, bracketed by num_blocks |
| Cache.EmptyInv | cache.py:12-20 | the freshly constructed state satisfies the invariant |
| Cache.ExtremalExists | cache.py:69-75 | every non-empty tracker has a key of least and of greatest value, so `min`/`max` is defined |
| Cache.ExtremalUnique | cache.py:69-75 | with distinct tracker values there is only one such key, so iteration order never decides |
| Cache.Victim | cache.py:67-75 | the victim is a tracker key of extremal value in the direction the policy names |
| Cache.ExtremeKey | cache.py:69-75 | the loop over the keys returns a key whose value is least (or greatest) among all keys |
| Cache.Touch | cache.py:60-63 | update_tracker bumps the counter by one, stamps the tag in set index with the new counter and leaves the cache maps alone |
| Cache.TouchKeepsInv | cache.py:60-63 | stamping the tag just put into the cache map restores the invariant |
| Cache.Access | cache.py:40-84 | an access returns H, M or the invalid-policy error, keeps the number of sets, advances the counter by one when it completes, and changes nothing when it raises |
| Cache.AccessKeepsInv | cache.py:40-84 | every access keeps the invariant: same keys in both maps, at most association tags per set, distinct stamps |
| Cache.AccessOutcome | cache.py:40-58 | the result is H exactly when the tag was resident, and otherwise M; a completed access raises the counter by exactly one and leaves the tag resident, stamped with the new counter; an error happens exactly on a full-set miss under an unknown policy and leaves the state untouched |
| Cache.AccessIsLocal | cache.py:42-43 | an access changes no set other than index, in either map |
| Cache.AccessResidents | cache.py:45-84 | a hit leaves the set's cache map unchanged; a miss with room adds exactly the tag, with the counter before the access; a full-set miss gives (old tags − {victim}) ∪ {tag} with an extremal victim, the same size, and matching tracker keys; every other tag still in the set keeps both its cache value and its tracker stamp |
| Cache.VictimIsDetermined | cache.py:67-75 | any extremal tag is the victim; LRU and LOOKAHEAD evict the least tracker value and MRU the greatest |
| Cache.RunLine | cache.py:93-96 | one loop body keeps the run's preconditions and the set count, and a line that raises leaves the state as it was |
| Cache.Run | cache.py:91-96 | a run keeps the invariant and the set count |
| Cache.RunLineCompleted | cache.py:93-96 | a completed line is one access at the fields its stripped text parses to: the new state is that access's, the counter rises by one, the row says H exactly when the tag was resident in that set, and the row is those fields formatted, its columns decoding back to them |
| Cache.FormatRow | cache.py:96 | both columns are `x` followed by canonical upper-case hex digits (a leading `0` only for zero), and the result column is the access result |
| Cache.FormatRowDecodes | cache.py:96 | the `x`-prefixed hex columns of a row decode back to the index and tag that produced them |
| Cache.RunCompleted | cache.py:91-96 | a completed run gives exactly one row per line, row k being line k's parsed index and tag formatted (its columns decode back to them), every row well formed, and advances the counter by the number of lines |
| Cache.CacheSimulator.constructor | cache.py:4-20 | the parameters are stored unvalidated, the state is `num_blocks // association` empty sets with counter 0, and the invariant holds |
| Cache.CacheSimulator.UpdateTracker | cache.py:60-63 | the new state is Touch of the old one |
| Cache.CacheSimulator.ReplaceEntry | cache.py:65-84 | it raises exactly under an unknown policy, with nothing changed; otherwise it deletes the unique extremal victim from both maps and inserts the tag with the current counter, leaving the counter alone |
| Cache.CacheSimulator.AccessCache | cache.py:40-58 | the returned result and the new fields are exactly Access of the old state, and the invariant is kept |
| Cache.CacheSimulator.SimulateLine | cache.py:93-96 | the row or error returned and the new fields are exactly RunLine of the old state |
| Cache.CacheSimulator.Simulate | cache.py:91-96 | the rows returned, or the first error, and the final fields are exactly Run of the old state over the lines |
| Scenarios.DirectDecode | cache.py:22-38 | with 8-bit addresses, 4-byte blocks and 4 sets, x00, x04, x08 and x0C decode to tag 0 in sets 0, 1, 2 and 3 |
| Scenarios.EndToEndExample | cache.py:40-63 | direct mapped under LRU from empty, the accesses to sets 0..3 miss and fill each set, and the repeated access to set 0 hits |
| Scenarios.TwoWayDecode | cache.py:22-38 | with 1-byte blocks and one set, x1, x2 and x3 decode to tags 1, 2 and 3 in set 0 |
| Scenarios.EvictionExample | cache.py:40-84 | in one 2-way set under LRU, tags 1, 2, 3 all miss; the third evicts tag 1 and leaves tags {2, 3} |

## Left out

- File reading in `simulate` (cache.py:88-89) and `display_results` (cache.py:98-104): these are I/O. `Simulate` takes the lines as a sequence and returns the rows the source would print.
- The interactive `__main__` block (cache.py:108-130): it reads the parameters from `input()`.
- `math.log2` on a non-power of two (cache.py:29-30): block size and set count are required to be powers of two. With a set count of 0, `math.log2(0)` raises in the source; the model requires it away instead.
- `int(address, 16)` beyond plain digits (cache.py:26): underscores, a sign, surrounding whitespace and a `0x` prefix are not accepted by `Text.ParseHex`.
- Text.Strip: removes the ASCII whitespace `str.strip()` removes (space, tab, line feed, vertical tab, form feed, carriage return and U+001C to U+001F), but not the non-ASCII whitespace such as U+0085, U+00A0 or U+2028 that it also removes.
- The iteration-order tie-break of `min`/`max` (cache.py:69, 72, 75): it is never reached, because `Cache.ExtremalUnique` shows the victim is unique.
- Aliasing of the per-set dictionaries: the model replaces `cache[index]` and `lru_tracker[index]` with new map values, where the source mutates shared dict objects in place.
- Cache.CacheSimulator.AccessCache: requires `0 <= index < len(cache)`. Python would raise `IndexError` there, or wrap a negative index; `parse_address` only produces indices in range.
- Cache.CacheSimulator.ReplaceEntry: requires a non-empty tracker. `min` of an empty dict raises in the source, but `access_cache` only calls it on a full set of at least one tag.
- Cache.CacheSimulator.constructor: requires `association >= 1`. With 0 the source's `//` raises, and with a negative value it yields a negative count.
- An unknown replacement policy is not rejected at construction: the constructor stores it unchecked (cache.py:4-20), and it raises only when a full set needs a victim (cache.py:76-77). A run with such a policy therefore proceeds normally until its first full-set miss, and the model keeps that behaviour.
- LOOKAHEAD is modelled as the source writes it: it evicts exactly like LRU (cache.py:73-75).
- Cache.Run: after an error the rows produced so far are dropped, as when the exception leaves `simulate`; the accesses already made stay in the state.
