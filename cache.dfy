/** The set-associative cache of CacheSimulator: per-set dictionaries from tag to the
    counter value at insertion (cache) and at last touch (lru_tracker), a global access
    counter, and a replacement policy named by a string.

    The first half states one access and one run over a trace as functions of a
    Snapshot of that state; the class CacheSimulator at the end updates its fields in
    place and is proved to do exactly what those functions say. */
module Cache {
  import opened Results
  import opened Text
  import opened Address

  /** The mutable state of a simulator, as a value. */
  datatype Snapshot = Snapshot(cache: seq<map<int, int>>, tracker: seq<map<int, int>>, counter: int)

  /** The state right after construction: numSets empty sets and a zero counter. */
  function Empty(numSets: nat): (s: Snapshot)
    ensures |s.cache| == |s.tracker| == numSets && s.counter == 0
    ensures forall i :: 0 <= i < numSets ==> s.cache[i] == map[] && s.tracker[i] == map[]
  {
    Snapshot(seq(numSets, _ => map[]), seq(numSets, _ => map[]), 0)
  }

  /** len(range(num_blocks // association)) for association >= 1; Dafny's / agrees with
      Python's // for a positive divisor. */
  function NumSets(numBlocks: int, association: int): (n: nat)
    requires association >= 1
    ensures n == 0 <==> numBlocks < association
    ensures n * association <= numBlocks < (n + 1) * association || numBlocks < 0
  {
    if numBlocks / association > 0 then numBlocks / association else 0
  }

  /** No set holds more than association tags. */
  ghost predicate WithinCapacity(cache: seq<map<int, int>>, association: int) {
    forall i :: 0 <= i < |cache| ==> |cache[i]| <= association
  }

  /** Set by set, the cache map and the tracker map have the same keys. */
  ghost predicate KeysAgree(cache: seq<map<int, int>>, tracker: seq<map<int, int>>) {
    forall i :: 0 <= i < |cache| && i < |tracker| ==> cache[i].Keys == tracker[i].Keys
  }

  /** The cache value of every resident tag is non-negative and below its tracker value. */
  ghost predicate CacheBelow(cache: seq<map<int, int>>, tracker: seq<map<int, int>>) {
    forall i, t :: 0 <= i < |cache| && i < |tracker| && t in cache[i] ==>
      t in tracker[i] && 0 <= cache[i][t] < tracker[i][t]
  }

  /** Every tracker value is at most c. */
  ghost predicate StampsAtMost(tracker: seq<map<int, int>>, c: int) {
    forall i, t :: 0 <= i < |tracker| && t in tracker[i] ==> tracker[i][t] <= c
  }

  /** No two resident tags, in the same set or in different sets, carry the same tracker value. */
  ghost predicate StampsDistinct(tracker: seq<map<int, int>>) {
    forall i, j, t, u ::
      (0 <= i < |tracker| && 0 <= j < |tracker| && t in tracker[i] && u in tracker[j]
       && tracker[i][t] == tracker[j][u])
      ==> i == j && t == u
  }

  /** The invariant every access keeps: the two per-set maps have the same keys, no set
      holds more than association tags, the cache value of a tag (the counter before its
      insertion) is below its tracker value (the counter after its last touch), which is
      at most the counter, and no two resident tags anywhere carry the same tracker value. */
  ghost predicate Inv(s: Snapshot, association: int) {
    && association >= 1
    && |s.cache| == |s.tracker|
    && s.counter >= 0
    && KeysAgree(s.cache, s.tracker)
    && WithinCapacity(s.cache, association)
    && CacheBelow(s.cache, s.tracker)
    && StampsAtMost(s.tracker, s.counter)
    && StampsDistinct(s.tracker)
  }

  lemma EmptyInv(numSets: nat, association: int)
    requires association >= 1
    ensures Inv(Empty(numSets), association)
  {
  }

  // ---------------------------------------------------------------- victim choice

  /** Which end of the tracker order the builtin min or max picks. */
  datatype Pick = Min | Max

  predicate KnownPolicy(policy: string) {
    policy == "LRU" || policy == "MRU" || policy == "LOOKAHEAD"
  }

  /** LRU and LOOKAHEAD both take the minimum; MRU takes the maximum. */
  function PickOf(policy: string): (p: Pick)
    requires KnownPolicy(policy)
    ensures p == Max <==> policy == "MRU"
  {
    if policy == "MRU" then Max else Min
  }

  predicate AtLeastAsExtreme(pick: Pick, a: int, b: int) {
    if pick == Min then a <= b else a >= b
  }

  /** k is a key in ks whose value in m is extremal among ks in the direction pick. */
  ghost predicate ExtremalIn(pick: Pick, m: map<int, int>, ks: set<int>, k: int)
    requires ks <= m.Keys
  {
    k in ks && forall t :: t in ks ==> AtLeastAsExtreme(pick, m[k], m[t])
  }

  /** k is a key of m whose value is extremal in the direction pick. */
  ghost predicate Extremal(pick: Pick, m: map<int, int>, k: int) {
    ExtremalIn(pick, m, m.Keys, k)
  }

  /** A non-empty set has a member to choose. */
  lemma HasMember(s: set<int>)
    requires s != {}
    ensures exists x :: x in s
  {
    if forall x :: x !in s {
      assert false;
    }
  }

  /** Every non-empty subset of the keys has an extremal element. */
  lemma {:induction false} ExtremalExists(pick: Pick, m: map<int, int>, ks: set<int>)
    requires ks != {} && ks <= m.Keys
    ensures exists k :: ExtremalIn(pick, m, ks, k)
    decreases |ks|
  {
    HasMember(ks);
    var x :| x in ks;
    if ks == {x} {
      assert ExtremalIn(pick, m, ks, x);
    } else {
      ExtremalExists(pick, m, ks - {x});
      var k' :| ExtremalIn(pick, m, ks - {x}, k');
      var k := if AtLeastAsExtreme(pick, m[x], m[k']) then x else k';
      assert ExtremalIn(pick, m, ks, k);
    }
  }

  /** No two distinct keys are extremal when the values are distinct, so the victim is
      determined and the iteration-order tie-break of min and max never comes into play. */
  lemma ExtremalUnique(pick: Pick, m: map<int, int>, a: int, b: int)
    requires forall t, u :: t in m && u in m && m[t] == m[u] ==> t == u
    requires Extremal(pick, m, a) && Extremal(pick, m, b)
    ensures a == b
  {
    assert AtLeastAsExtreme(pick, m[a], m[b]) && AtLeastAsExtreme(pick, m[b], m[a]);
  }

  /** The tag replace_entry evicts from a non-empty tracker under a known policy. */
  ghost function Victim(policy: string, m: map<int, int>): (v: int)
    requires m != map[] && KnownPolicy(policy)
    ensures Extremal(PickOf(policy), m, v)
  {
    ExtremalExists(PickOf(policy), m, m.Keys);
    var v :| ExtremalIn(PickOf(policy), m, m.Keys, v);
    v
  }

  /** min(m, key=m.get) for pick == Min and max(m, key=m.get) for pick == Max: one pass
      over the keys that keeps the best key seen so far and replaces it only by a
      strictly better one. */
  method ExtremeKey(m: map<int, int>, pick: Pick) returns (v: int)
    requires m != map[]
    ensures Extremal(pick, m, v)
  {
    var rest := m.Keys;
    HasMember(rest);
    v :| v in rest;
    rest := rest - {v};
    while rest != {}
      invariant rest <= m.Keys && v in m
      invariant forall t :: t in m && t !in rest ==> AtLeastAsExtreme(pick, m[v], m[t])
      decreases |rest|
    {
      HasMember(rest);
      var t :| t in rest;
      if !AtLeastAsExtreme(pick, m[v], m[t]) {
        v := t;
      }
      rest := rest - {t};
    }
  }

  // ---------------------------------------------------------------- one access

  /** update_tracker: bump the counter, then stamp tag in set index with the new value. */
  function Touch(s: Snapshot, index: int, tag: int): (s': Snapshot)
    requires 0 <= index < |s.tracker|
    ensures s'.counter == s.counter + 1 && s'.cache == s.cache
    ensures s'.tracker == s.tracker[index := s.tracker[index][tag := s.counter + 1]]
  {
    Snapshot(s.cache, s.tracker[index := s.tracker[index][tag := s.counter + 1]], s.counter + 1)
  }

  /** What one access returns and the state it leaves. */
  datatype Step = Step(result: Result<string>, after: Snapshot)

  /** access_cache(tag, index): "H" and a refreshed tracker on a hit; on a miss the tag is
      inserted with the counter before the bump, after evicting a victim from a full set;
      a full-set miss under an unknown policy raises before anything changes. */
  ghost function Access(s: Snapshot, association: int, policy: string, tag: int, index: int): (st: Step)
    requires Inv(s, association) && 0 <= index < |s.cache|
    ensures st.result == Ok("H") || st.result == Ok("M") || st.result == Err(InvalidReplacementPolicy)
    ensures |st.after.cache| == |s.cache| && |st.after.tracker| == |s.tracker|
    ensures st.result.Ok? ==> st.after.counter == s.counter + 1
    ensures st.result.Err? ==> st.after == s
  {
    var lines := s.cache[index];
    if tag in lines then
      Step(Ok("H"), Touch(s, index, tag))
    else if |lines| < association then
      Step(Ok("M"), Touch(s.(cache := s.cache[index := lines[tag := s.counter]]), index, tag))
    else if !KnownPolicy(policy) then
      Step(Err(InvalidReplacementPolicy), s)
    else
      assert s.tracker[index].Keys == lines.Keys;
      assert lines != map[] by { assert |lines| >= 1; }
      var v := Victim(policy, s.tracker[index]);
      var replaced := Snapshot(s.cache[index := (lines - {v})[tag := s.counter]],
                               s.tracker[index := s.tracker[index] - {v}], s.counter);
      Step(Ok("M"), Touch(replaced, index, tag))
  }

  lemma MapAddCard(m: map<int, int>, k: int, x: int)
    requires k !in m
    ensures |m[k := x]| == |m| + 1
  {
    assert m[k := x].Keys == m.Keys + {k};
  }

  lemma MapRemoveCard(m: map<int, int>, k: int)
    requires k in m
    ensures |m - {k}| == |m| - 1
  {
    assert (m - {k}).Keys == m.Keys - {k};
  }

  /** KeysAgree, except possibly in set index. */
  ghost predicate KeysAgreeExcept(cache: seq<map<int, int>>, tracker: seq<map<int, int>>, index: int) {
    forall i :: 0 <= i < |cache| && i < |tracker| && i != index ==> cache[i].Keys == tracker[i].Keys
  }

  /** CacheBelow, except possibly for tag in set index. */
  ghost predicate CacheBelowExcept(cache: seq<map<int, int>>, tracker: seq<map<int, int>>, index: int, tag: int) {
    forall i, t :: 0 <= i < |cache| && i < |tracker| && t in cache[i] && (i != index || t != tag) ==>
      t in tracker[i] && 0 <= cache[i][t] < tracker[i][t]
  }

  /** The state just before update_tracker runs: the invariant, except that tag has been
      put into the cache map of set index and may still be missing from its tracker. */
  ghost predicate PreTouch(s: Snapshot, association: int, index: int, tag: int) {
    && association >= 1
    && |s.cache| == |s.tracker|
    && 0 <= index < |s.cache|
    && s.counter >= 0
    && KeysAgreeExcept(s.cache, s.tracker, index)
    && s.cache[index].Keys == s.tracker[index].Keys + {tag}
    && WithinCapacity(s.cache, association)
    && CacheBelowExcept(s.cache, s.tracker, index, tag)
    && 0 <= s.cache[index][tag] <= s.counter
    && StampsAtMost(s.tracker, s.counter)
    && StampsDistinct(s.tracker)
  }

  /** Stamping one tag with c + 1 keeps the stamps distinct when all of them are at most c. */
  lemma FreshStampDistinct(tracker: seq<map<int, int>>, index: int, tag: int, c: int)
    requires 0 <= index < |tracker| && StampsAtMost(tracker, c) && StampsDistinct(tracker)
    ensures StampsDistinct(tracker[index := tracker[index][tag := c + 1]])
    ensures StampsAtMost(tracker[index := tracker[index][tag := c + 1]], c + 1)
  {
    var tr := tracker[index := tracker[index][tag := c + 1]];
    forall i, j, t, u |
      0 <= i < |tr| && 0 <= j < |tr| && t in tr[i] && u in tr[j] && tr[i][t] == tr[j][u]
      ensures i == j && t == u
    {
      if (i != index || t != tag) && (j != index || u != tag) {
        assert tracker[i][t] == tr[i][t] && tracker[j][u] == tr[j][u];
      }
    }
  }

  /** Stamping the one tag whose tracker entry is missing makes the keys agree. */
  lemma TouchKeysAgree(cache: seq<map<int, int>>, tracker: seq<map<int, int>>, index: int, tag: int, c: int)
    requires |cache| == |tracker| && 0 <= index < |cache|
    requires KeysAgreeExcept(cache, tracker, index)
    requires cache[index].Keys == tracker[index].Keys + {tag}
    ensures KeysAgree(cache, tracker[index := tracker[index][tag := c]])
  {
    var tr := tracker[index := tracker[index][tag := c]];
    forall i | 0 <= i < |cache| && i < |tr| ensures cache[i].Keys == tr[i].Keys {
      if i == index {
        assert tr[i].Keys == tracker[index].Keys + {tag};
      }
    }
  }

  /** Stamping tag with c + 1, above its cache value, keeps every cache value below its stamp. */
  lemma TouchCacheBelow(cache: seq<map<int, int>>, tracker: seq<map<int, int>>, index: int, tag: int, c: int)
    requires |cache| == |tracker| && 0 <= index < |cache|
    requires tag in cache[index] && 0 <= cache[index][tag] <= c
    requires CacheBelowExcept(cache, tracker, index, tag)
    ensures CacheBelow(cache, tracker[index := tracker[index][tag := c + 1]])
  {
    var tr := tracker[index := tracker[index][tag := c + 1]];
    forall i, t | 0 <= i < |cache| && i < |tr| && t in cache[i]
      ensures t in tr[i] && 0 <= cache[i][t] < tr[i][t]
    {
      if i != index || t != tag {
        assert tr[i][t] == tracker[i][t];
      }
    }
  }

  /** update_tracker turns that state into one that satisfies the invariant. */
  lemma TouchKeepsInv(s: Snapshot, association: int, index: int, tag: int)
    requires PreTouch(s, association, index, tag)
    ensures Inv(Touch(s, index, tag), association)
  {
    var tr := s.tracker[index := s.tracker[index][tag := s.counter + 1]];
    TouchStamps(s, index, tag);
    TouchKeysAgree(s.cache, s.tracker, index, tag, s.counter + 1);
    TouchCacheBelow(s.cache, s.tracker, index, tag, s.counter);
    assert Touch(s, index, tag) == Snapshot(s.cache, tr, s.counter + 1);
    assert |tr| == |s.cache|;
  }

  lemma TouchStamps(s: Snapshot, index: int, tag: int)
    requires 0 <= index < |s.tracker| && StampsAtMost(s.tracker, s.counter) && StampsDistinct(s.tracker)
    ensures StampsDistinct(Touch(s, index, tag).tracker)
    ensures StampsAtMost(Touch(s, index, tag).tracker, Touch(s, index, tag).counter)
  {
    FreshStampDistinct(s.tracker, index, tag, s.counter);
  }

  lemma HitPreTouch(s: Snapshot, association: int, index: int, tag: int)
    requires Inv(s, association) && 0 <= index < |s.cache| && tag in s.cache[index]
    ensures PreTouch(s, association, index, tag)
  {
  }

  lemma InsertPreTouch(s: Snapshot, association: int, index: int, tag: int)
    requires Inv(s, association) && 0 <= index < |s.cache|
    requires tag !in s.cache[index] && |s.cache[index]| < association
    ensures PreTouch(s.(cache := s.cache[index := s.cache[index][tag := s.counter]]), association, index, tag)
  {
    MapAddCard(s.cache[index], tag, s.counter);
  }

  lemma EvictPreTouch(s: Snapshot, association: int, index: int, tag: int, v: int)
    requires Inv(s, association) && 0 <= index < |s.cache|
    requires tag !in s.cache[index] && v in s.cache[index]
    ensures PreTouch(Snapshot(s.cache[index := (s.cache[index] - {v})[tag := s.counter]],
                              s.tracker[index := s.tracker[index] - {v}], s.counter),
                     association, index, tag)
  {
    MapRemoveCard(s.cache[index], v);
    MapAddCard(s.cache[index] - {v}, tag, s.counter);
  }

  /** Every access keeps the invariant. */
  lemma AccessKeepsInv(s: Snapshot, association: int, policy: string, tag: int, index: int)
    requires Inv(s, association) && 0 <= index < |s.cache|
    ensures Inv(Access(s, association, policy, tag, index).after, association)
  {
    var lines := s.cache[index];
    if tag in lines {
      HitPreTouch(s, association, index, tag);
      TouchKeepsInv(s, association, index, tag);
    } else if |lines| < association {
      InsertPreTouch(s, association, index, tag);
      TouchKeepsInv(s.(cache := s.cache[index := lines[tag := s.counter]]), association, index, tag);
    } else if KnownPolicy(policy) {
      var v := Victim(policy, s.tracker[index]);
      EvictPreTouch(s, association, index, tag, v);
      TouchKeepsInv(Snapshot(s.cache[index := (lines - {v})[tag := s.counter]],
                             s.tracker[index := s.tracker[index] - {v}], s.counter),
                    association, index, tag);
    }
  }

  /** Hit exactly when the tag was resident; the counter moves by one per completed
      access and the touched tag carries the new counter value; a failure changes nothing. */
  lemma AccessOutcome(s: Snapshot, association: int, policy: string, tag: int, index: int)
    requires Inv(s, association) && 0 <= index < |s.cache|
    ensures var st := Access(s, association, policy, tag, index);
      && (st.result == Ok("H") <==> tag in s.cache[index])
      && (st.result.Ok? ==> st.result.value == "H" || st.result.value == "M")
      && (st.result.Ok? ==> st.after.counter == s.counter + 1
                            && tag in st.after.cache[index]
                            && st.after.tracker[index][tag] == st.after.counter)
      && (st.result.Err? <==> tag !in s.cache[index] && |s.cache[index]| >= association
                              && !KnownPolicy(policy))
      && (st.result.Err? ==> st.result.error == InvalidReplacementPolicy && st.after == s)
  {
  }

  /** An access touches only set index. */
  lemma AccessIsLocal(s: Snapshot, association: int, policy: string, tag: int, index: int, i: int)
    requires Inv(s, association) && 0 <= index < |s.cache|
    requires 0 <= i < |s.cache| && i != index
    ensures var st := Access(s, association, policy, tag, index);
      |st.after.cache| == |s.cache| && st.after.cache[i] == s.cache[i] && st.after.tracker[i] == s.tracker[i]
  {
  }

  /** How the resident tags of set index change: unchanged on a hit, one more on a miss
      with room, and (old tags - {victim}) + {tag} with an extremal victim on a full-set
      miss; the cache value of a newly inserted tag is the counter before the access, and
      a hit leaves the cache values alone. */
  lemma AccessResidents(s: Snapshot, association: int, policy: string, tag: int, index: int)
    requires Inv(s, association) && 0 <= index < |s.cache|
    ensures var st := Access(s, association, policy, tag, index);
      var before, after := s.cache[index], st.after.cache[index];
      && (tag in before ==> after == before)
      && (tag !in before && |before| < association ==>
            after.Keys == before.Keys + {tag} && |after| == |before| + 1 && after[tag] == s.counter)
      && (tag !in before && |before| >= association && KnownPolicy(policy) ==>
            exists v :: Extremal(PickOf(policy), s.tracker[index], v)
                        && after.Keys == (before.Keys - {v}) + {tag}
                        && st.after.tracker[index].Keys == after.Keys
                        && |after| == |before| && after[tag] == s.counter)
      && (forall t :: t in after && t != tag ==>
            && t in before && after[t] == before[t]
            && t in st.after.tracker[index] && st.after.tracker[index][t] == s.tracker[index][t])
  {
    var before := s.cache[index];
    if tag !in before {
      if |before| < association {
        MapAddCard(before, tag, s.counter);
      } else if KnownPolicy(policy) {
        var v := Victim(policy, s.tracker[index]);
        MapRemoveCard(before, v);
        MapAddCard(before - {v}, tag, s.counter);
        assert Extremal(PickOf(policy), s.tracker[index], v);
      }
    }
  }

  /** Within a set, LRU and LOOKAHEAD evict the tag touched longest ago and MRU the tag
      touched last, and that tag is the only one with this property. */
  lemma VictimIsDetermined(s: Snapshot, association: int, policy: string, index: int, v: int)
    requires Inv(s, association) && 0 <= index < |s.cache|
    requires s.tracker[index] != map[] && KnownPolicy(policy)
    requires Extremal(PickOf(policy), s.tracker[index], v)
    ensures v == Victim(policy, s.tracker[index])
    ensures policy != "MRU" ==> forall t :: t in s.tracker[index] ==> s.tracker[index][v] <= s.tracker[index][t]
    ensures policy == "MRU" ==> forall t :: t in s.tracker[index] ==> s.tracker[index][v] >= s.tracker[index][t]
  {
    var m := s.tracker[index];
    forall t, u | t in m && u in m && m[t] == m[u] ensures t == u {
    }
    ExtremalUnique(PickOf(policy), m, v, Victim(policy, m));
  }

  // ---------------------------------------------------------------- a run over a trace

  /** The fixed parameters one run needs. */
  datatype Config = Config(addressSpace: int, blockSize: int, association: int, policy: string)

  /** One entry of results: (f"x{index:X}", f"x{tag:X}", "H" or "M"). */
  datatype Row = Row(index: string, tag: string, result: string)

  /** The rows of a run, or the error that stopped it, and the state it leaves. */
  datatype Outcome = Outcome(rows: Result<seq<Row>>, after: Snapshot)

  /** The columns are "x" followed by the canonical upper-case hex of index and tag. */
  function FormatRow(f: Fields, result: string): (r: Row)
    ensures r.result == result
    ensures |r.index| >= 2 && r.index[0] == 'x' && (r.index[1] == '0' <==> f.index == 0)
    ensures forall k :: 1 <= k < |r.index| ==> IsUpperHexDigit(r.index[k])
    ensures |r.tag| >= 2 && r.tag[0] == 'x' && (r.tag[1] == '0' <==> f.tag == 0)
    ensures forall k :: 1 <= k < |r.tag| ==> IsUpperHexDigit(r.tag[k])
  {
    Row("x" + ToHex(f.index), "x" + ToHex(f.tag), result)
  }

  /** Puts rows already produced in front of the rows of the rest of the run. */
  function Prefixed(rows: seq<Row>, o: Outcome): Outcome {
    match o.rows
    case Ok(rest) => Outcome(Ok(rows + rest), o.after)
    case Err(e) => o
  }

  ghost predicate RunReady(cfg: Config, s: Snapshot) {
    Inv(s, cfg.association) && IsPowerOfTwo(cfg.blockSize) && IsPowerOfTwo(|s.cache|)
  }

  /** What the body of simulate's loop does with one line, and the state it leaves. */
  datatype LineStep = LineStep(row: Result<Row>, after: Snapshot)

  /** The body of simulate's loop: strip the line, parse it, access the cache and format
      the row. A parse error or a policy error is raised before the state changes. */
  ghost function RunLine(cfg: Config, s: Snapshot, line: string): (ls: LineStep)
    requires RunReady(cfg, s)
    ensures RunReady(cfg, ls.after) && |ls.after.cache| == |s.cache|
    ensures ls.row.Err? ==> ls.after == s
  {
    match ParseAddress(cfg.addressSpace, cfg.blockSize, |s.cache|, Strip(line))
    case Err(e) => LineStep(Err(e), s)
    case Ok(f) =>
      AccessKeepsInv(s, cfg.association, cfg.policy, f.tag, f.index);
      var st := Access(s, cfg.association, cfg.policy, f.tag, f.index);
      match st.result
      case Err(e) => LineStep(Err(e), s)
      case Ok(h) => LineStep(Ok(FormatRow(f, h)), st.after)
  }

  /** The loop of simulate over a sequence of lines: the first error stops the run and the
      accesses already made stay. */
  ghost function Run(cfg: Config, s: Snapshot, lines: seq<string>): (o: Outcome)
    requires RunReady(cfg, s)
    ensures RunReady(cfg, o.after) && |o.after.cache| == |s.cache|
    decreases |lines|
  {
    if lines == [] then Outcome(Ok([]), s)
    else
      var ls := RunLine(cfg, s, lines[0]);
      match ls.row
      case Err(e) => Outcome(Err(e), s)
      case Ok(row) => Prefixed([row], Run(cfg, ls.after, lines[1..]))
  }

  lemma PrefixedNothing(o: Outcome)
    ensures Prefixed([], o) == o
  {
    if o.rows.Ok? {
      assert [] + o.rows.value == o.rows.value;
    }
  }

  /** Rows produced in two goes are the rows of the first go followed by the second. */
  lemma PrefixedTwice(a: seq<Row>, b: seq<Row>, o: Outcome)
    ensures Prefixed(a, Prefixed(b, o)) == Prefixed(a + b, o)
  {
    if o.rows.Ok? {
      assert a + (b + o.rows.value) == (a + b) + o.rows.value;
    }
  }

  /** A line that completes is one access of the cache at the parsed fields; its row says
      H exactly on a hit, and its columns decode back to those fields. */
  lemma RunLineCompleted(cfg: Config, s: Snapshot, line: string)
    requires RunReady(cfg, s)
    requires RunLine(cfg, s, line).row.Ok?
    ensures var ls := RunLine(cfg, s, line);
      var f := ParseAddress(cfg.addressSpace, cfg.blockSize, |s.cache|, Strip(line));
      && f.Ok?
      && ls.after.counter == s.counter + 1
      && (ls.row.value.result == "H" <==> f.value.tag in s.cache[f.value.index])
      && ls.after == Access(s, cfg.association, cfg.policy, f.value.tag, f.value.index).after
      && WellFormedRow(ls.row.value, |s.cache|)
      && RowFor(cfg, |s.cache|, line, ls.row.value)
  {
    var f := ParseAddress(cfg.addressSpace, cfg.blockSize, |s.cache|, Strip(line)).value;
    AccessOutcome(s, cfg.association, cfg.policy, f.tag, f.index);
    FormatRowDecodes(f, Access(s, cfg.association, cfg.policy, f.tag, f.index).result.value);
  }

  /** A row as simulate appends it: both columns are "x" followed by upper-case hex, the
      index column names one of numSets sets, and the result is "H" or "M". */
  ghost predicate WellFormedRow(row: Row, numSets: int) {
    && (row.result == "H" || row.result == "M")
    && |row.index| >= 2 && row.index[0] == 'x' && |row.tag| >= 2 && row.tag[0] == 'x'
    && ParseHex(StripMarker(row.index)).Ok? && ParseHex(StripMarker(row.index)).value < numSets
    && ParseHex(StripMarker(row.tag)).Ok?
  }

  /** The columns of a row decode back to the fields that produced them. */
  lemma FormatRowDecodes(f: Fields, result: string)
    ensures ParseHex(StripMarker(FormatRow(f, result).index)) == Ok(f.index)
    ensures ParseHex(StripMarker(FormatRow(f, result).tag)) == Ok(f.tag)
  {
    var row := FormatRow(f, result);
    HexRoundTrip(f.index);
    HexRoundTrip(f.tag);
    assert StripMarker(row.index) == ToHex(f.index);
    assert StripMarker(row.tag) == ToHex(f.tag);
  }

  /** row is the row simulate appends for line: the fields line parses to, formatted, with
      both columns decoding back to them. */
  ghost predicate RowFor(cfg: Config, numSets: int, line: string, row: Row) {
    && IsPowerOfTwo(cfg.blockSize) && IsPowerOfTwo(numSets)
    && ParseAddress(cfg.addressSpace, cfg.blockSize, numSets, Strip(line)).Ok?
    && var f := ParseAddress(cfg.addressSpace, cfg.blockSize, numSets, Strip(line)).value;
       && row == FormatRow(f, row.result)
       && ParseHex(StripMarker(row.index)) == Ok(f.index)
       && ParseHex(StripMarker(row.tag)) == Ok(f.tag)
  }

  /** Row k is the row for line k. */
  ghost predicate RowsFor(cfg: Config, numSets: int, lines: seq<string>, rows: seq<Row>) {
    |rows| == |lines| && forall k :: 0 <= k < |rows| ==> RowFor(cfg, numSets, lines[k], rows[k])
  }

  lemma ConsRowsFor(cfg: Config, numSets: int, lines: seq<string>, row: Row, rows: seq<Row>)
    requires lines != [] && RowFor(cfg, numSets, lines[0], row) && RowsFor(cfg, numSets, lines[1..], rows)
    ensures RowsFor(cfg, numSets, lines, [row] + rows)
  {
    var all := [row] + rows;
    forall k | 0 <= k < |all| ensures RowFor(cfg, numSets, lines[k], all[k]) {
      if k > 0 {
        assert all[k] == rows[k - 1] && lines[k] == lines[1..][k - 1];
      }
    }
  }

  ghost predicate AllWellFormed(rows: seq<Row>, numSets: int) {
    forall k :: 0 <= k < |rows| ==> WellFormedRow(rows[k], numSets)
  }

  lemma ConsWellFormed(row: Row, rows: seq<Row>, numSets: int)
    requires WellFormedRow(row, numSets) && AllWellFormed(rows, numSets)
    ensures AllWellFormed([row] + rows, numSets)
  {
    var all := [row] + rows;
    forall k | 0 <= k < |all| ensures WellFormedRow(all[k], numSets) {
      if k > 0 {
        assert all[k] == rows[k - 1];
      }
    }
  }

  /** Run on a line that completes: its row, then the rows of the rest from the new state. */
  lemma RunCons(cfg: Config, s: Snapshot, lines: seq<string>)
    requires RunReady(cfg, s) && lines != [] && RunLine(cfg, s, lines[0]).row.Ok?
    ensures var ls := RunLine(cfg, s, lines[0]);
      Run(cfg, s, lines) == Prefixed([ls.row.value], Run(cfg, ls.after, lines[1..]))
  {
  }

  /** A completed run gives one well-formed row per line, row k being the row for line
      k, and advances the counter by the number of lines. */
  lemma {:induction false} RunCompleted(cfg: Config, s: Snapshot, lines: seq<string>)
    requires RunReady(cfg, s)
    requires Run(cfg, s, lines).rows.Ok?
    ensures var o := Run(cfg, s, lines);
      && |o.rows.value| == |lines|
      && o.after.counter == s.counter + |lines|
      && AllWellFormed(o.rows.value, |s.cache|)
      && RowsFor(cfg, |s.cache|, lines, o.rows.value)
    decreases |lines|
  {
    if lines != [] {
      var ls := RunLine(cfg, s, lines[0]);
      assert ls.row.Ok?;
      RunCons(cfg, s, lines);
      RunLineCompleted(cfg, s, lines[0]);
      var next := Run(cfg, ls.after, lines[1..]);
      RunCompleted(cfg, ls.after, lines[1..]);
      ConsWellFormed(ls.row.value, next.rows.value, |s.cache|);
      ConsRowsFor(cfg, |s.cache|, lines, ls.row.value, next.rows.value);
    }
  }

  // ---------------------------------------------------------------- the class

  class CacheSimulator {
    const addressSpace: int
    const blockSize: int
    const numBlocks: int
    const association: int
    const replacementPolicy: string

    /** Per set: tag -> the counter value when the tag was inserted. */
    var cache: seq<map<int, int>>
    /** Per set: tag -> the counter value when the tag was last touched. */
    var lruTracker: seq<map<int, int>>
    var accessCounter: int

    function State(): Snapshot
      reads this
    {
      Snapshot(cache, lruTracker, accessCounter)
    }

    function Params(): Config {
      Config(addressSpace, blockSize, association, replacementPolicy)
    }

    ghost predicate Valid()
      reads this
    {
      Inv(State(), association)
    }

    /** __init__: stores the parameters as given, with no validation, and creates
        num_blocks // association empty sets. */
    constructor (addressSpace: int, blockSize: int, numBlocks: int, association: int, replacementPolicy: string)
      requires association >= 1
      ensures this.addressSpace == addressSpace && this.blockSize == blockSize
      ensures this.numBlocks == numBlocks && this.association == association
      ensures this.replacementPolicy == replacementPolicy
      ensures State() == Empty(NumSets(numBlocks, association))
      ensures Valid()
    {
      this.addressSpace := addressSpace;
      this.blockSize := blockSize;
      this.numBlocks := numBlocks;
      this.association := association;
      this.replacementPolicy := replacementPolicy;
      var n := NumSets(numBlocks, association);
      cache := seq(n, _ => map[]);
      lruTracker := seq(n, _ => map[]);
      accessCounter := 0;
    }

    /** update_tracker. */
    method UpdateTracker(index: int, tag: int)
      requires 0 <= index < |lruTracker|
      modifies this
      ensures State() == Touch(old(State()), index, tag)
    {
      accessCounter := accessCounter + 1;
      lruTracker := lruTracker[index := lruTracker[index][tag := accessCounter]];
    }

    /** replace_entry: choose the victim by the policy, delete it from both maps of the
        set and insert tag into the cache map with the current counter. An unknown
        policy raises before anything is deleted. */
    method ReplaceEntry(index: int, tag: int) returns (r: Result<()>)
      requires Valid() && 0 <= index < |cache| && lruTracker[index] != map[]
      modifies this
      ensures r.Err? <==> !KnownPolicy(replacementPolicy)
      ensures r.Err? ==> r.error == InvalidReplacementPolicy && State() == old(State())
      ensures r.Ok? ==>
        var v := Victim(replacementPolicy, old(lruTracker[index]));
        && cache == old(cache)[index := (old(cache[index]) - {v})[tag := old(accessCounter)]]
        && lruTracker == old(lruTracker)[index := old(lruTracker[index]) - {v}]
        && accessCounter == old(accessCounter)
    {
      var victim: int;
      if replacementPolicy == "LRU" {
        victim := ExtremeKey(lruTracker[index], Min);
      } else if replacementPolicy == "MRU" {
        victim := ExtremeKey(lruTracker[index], Max);
      } else if replacementPolicy == "LOOKAHEAD" {
        victim := ExtremeKey(lruTracker[index], Min);
      } else {
        return Err(InvalidReplacementPolicy);
      }
      VictimIsDetermined(State(), association, replacementPolicy, index, victim);
      cache := cache[index := cache[index] - {victim}];
      lruTracker := lruTracker[index := lruTracker[index] - {victim}];
      cache := cache[index := cache[index][tag := accessCounter]];
      r := Ok(());
    }

    /** access_cache. */
    method AccessCache(tag: int, index: int) returns (r: Result<string>)
      requires Valid() && 0 <= index < |cache|
      modifies this
      ensures Valid()
      ensures Access(old(State()), association, replacementPolicy, tag, index) == Step(r, State())
    {
      ghost var s := State();
      AccessKeepsInv(s, association, replacementPolicy, tag, index);
      var setCache := cache[index];
      if tag in setCache {
        UpdateTracker(index, tag);
        return Ok("H");
      }
      if |setCache| < association {
        cache := cache[index := setCache[tag := accessCounter]];
      } else {
        assert lruTracker[index].Keys == setCache.Keys;
        assert |setCache| >= 1;
        var replaced := ReplaceEntry(index, tag);
        if replaced.Err? {
          return Err(replaced.error);
        }
      }
      UpdateTracker(index, tag);
      r := Ok("M");
    }

    /** The loop body of simulate for one line. */
    method SimulateLine(line: string) returns (r: Result<Row>)
      requires Valid() && IsPowerOfTwo(blockSize) && IsPowerOfTwo(|cache|)
      modifies this
      ensures Valid() && |cache| == old(|cache|)
      ensures RunLine(Params(), old(State()), line) == LineStep(r, State())
    {
      var address := Strip(line);
      var parsed := ParseAddress(addressSpace, blockSize, |cache|, address);
      if parsed.Err? {
        return Err(parsed.error);
      }
      var f := parsed.value;
      AccessOutcome(State(), association, replacementPolicy, f.tag, f.index);
      var result := AccessCache(f.tag, f.index);
      if result.Err? {
        return Err(result.error);
      }
      r := Ok(FormatRow(f, result.value));
    }

    /** simulate over lines already read: each line goes through the loop body and its
        row is appended; the first error stops the loop and is returned. */
    method Simulate(lines: seq<string>) returns (r: Result<seq<Row>>)
      requires Valid() && IsPowerOfTwo(blockSize) && IsPowerOfTwo(|cache|)
      modifies this
      ensures Valid()
      ensures Run(Params(), old(State()), lines) == Outcome(r, State())
    {
      var results: seq<Row> := [];
      var i := 0;
      assert lines[i..] == lines;
      PrefixedNothing(Run(Params(), State(), lines));
      while i < |lines|
        invariant 0 <= i <= |lines|
        invariant Valid() && |cache| == old(|cache|)
        invariant Prefixed(results, Run(Params(), State(), lines[i..])) == Run(Params(), old(State()), lines)
      {
        ghost var s, rest := State(), lines[i..];
        assert rest[0] == lines[i] && rest[1..] == lines[i + 1..];
        var row := SimulateLine(lines[i]);
        if row.Err? {
          assert Run(Params(), s, rest) == Outcome(Err(row.error), s);
          return Err(row.error);
        }
        ghost var next := Run(Params(), State(), lines[i + 1..]);
        assert Run(Params(), s, rest) == Prefixed([row.value], next);
        PrefixedTwice(results, [row.value], next);
        results := results + [row.value];
        i := i + 1;
      }
      assert lines[i..] == [];
      assert results + [] == results;
      r := Ok(results);
    }
  }
}
