/** The literal pattern search of audit/audit_ct_namespace.cpp.
    A `string` stands for the source's byte string, one `char` per byte. */
module TextScan {
  import opened Wrappers

  /** `needle` is spelled by `text` from position `p` on. */
  predicate OccursAt(text: string, needle: string, p: nat) {
    p + |needle| <= |text| && text[p..p + |needle|] == needle
  }

  /** `std::string::find`: the first occurrence at or after `from`. */
  function Find(text: string, needle: string, from: nat): (r: Option<nat>)
    ensures r.Some? ==> from <= r.value && OccursAt(text, needle, r.value)
    ensures r.Some? ==> forall p: nat :: from <= p < r.value ==> !OccursAt(text, needle, p)
    ensures r.None? ==> forall p: nat :: from <= p ==> !OccursAt(text, needle, p)
    decreases |text| - from
  {
    if from > |text| then None
    else if OccursAt(text, needle, from) then Some(from)
    else Find(text, needle, from + 1)
  }

  predicate Contains(text: string, needle: string)
    ensures Contains(text, needle) <==> exists p: nat :: OccursAt(text, needle, p)
  {
    Find(text, needle, 0).Some?
  }

  /** A set of occurrences no two of which share a character. */
  ghost predicate Packing(text: string, needle: string, occurrences: set<nat>) {
    && (forall p <- occurrences :: OccursAt(text, needle, p))
    && (forall p <- occurrences, q <- occurrences :: p < q ==> p + |needle| <= q)
  }

  /** `n` is the size of the largest packing. */
  ghost predicate LargestPacking(text: string, needle: string, n: nat) {
    && (exists s: set<nat> :: Packing(text, needle, s) && |s| == n)
    && (forall s: set<nat> :: Packing(text, needle, s) ==> |s| <= n)
  }

  ghost function From(s: set<nat>, bound: nat): set<nat> {
    set p <- s | bound <= p
  }

  /** No packing beats the greedy choice: taking the first occurrence `first` costs a packing
      of the text from `first` on at most one member. */
  lemma FirstOccurrenceCostsOne(text: string, needle: string, s: set<nat>, first: nat)
    requires needle != [] && Packing(text, needle, s)
    requires forall p <- s :: first <= p
    ensures |s| <= |From(s, first + |needle|)| + 1
  {
    var rest := From(s, first + |needle|);
    if s == rest {
    } else {
      var q :| q in s && q !in rest;
      forall p | p in s ensures p in rest + {q} {
        assert p < q || p == q || q < p;
      }
      SubsetIsNoLarger(s, rest + {q});
    }
  }

  lemma SubsetIsNoLarger<T>(a: set<T>, b: set<T>)
    requires a <= b
    ensures |a| <= |b|
  {
    assert b == a + (b - a);
  }

  /** The number of occurrences the left-to-right search takes from position `from` on. */
  function GreedyCount(text: string, needle: string, from: nat): nat
    requires needle != []
    decreases |text| - from
  {
    var hit := Find(text, needle, from);
    if hit.None? then 0 else 1 + GreedyCount(text, needle, hit.value + |needle|)
  }

  lemma {:induction false} GreedyBeatsEveryPacking(text: string, needle: string, from: nat, s: set<nat>)
    requires needle != [] && Packing(text, needle, s)
    requires forall p <- s :: from <= p
    ensures |s| <= GreedyCount(text, needle, from)
    decreases |text| - from
  {
    hide Find;
    var hit := Find(text, needle, from);
    if hit.None? {
      assert s == {};
    } else {
      var rest := From(s, hit.value + |needle|);
      FirstOccurrenceCostsOne(text, needle, s, hit.value);
      GreedyBeatsEveryPacking(text, needle, hit.value + |needle|, rest);
    }
  }

  lemma {:induction false} GreedyIsAPacking(text: string, needle: string, from: nat) returns (s: set<nat>)
    requires needle != []
    ensures Packing(text, needle, s) && |s| == GreedyCount(text, needle, from)
    ensures forall p <- s :: from <= p
    decreases |text| - from
  {
    hide Find;
    var hit := Find(text, needle, from);
    if hit.None? {
      s := {};
    } else {
      var rest := GreedyIsAPacking(text, needle, hit.value + |needle|);
      s := rest + {hit.value};
    }
  }

  lemma GreedyIsOptimal(text: string, needle: string)
    requires needle != []
    ensures LargestPacking(text, needle, GreedyCount(text, needle, 0))
  {
    var s := GreedyIsAPacking(text, needle, 0);
    forall t: set<nat> | Packing(text, needle, t) ensures |t| <= GreedyCount(text, needle, 0) {
      GreedyBeatsEveryPacking(text, needle, 0, t);
    }
  }

  /** The counting loop. An empty needle would never advance `pos`, so the caller owes a
      non-empty one; every pattern of the audit tables is non-empty. */
  method CountOccurrences(text: string, needle: string) returns (n: nat)
    requires needle != []
    ensures LargestPacking(text, needle, n)
    ensures (exists s: set<nat> :: Packing(text, needle, s) && |s| == n)
            && forall s: set<nat> :: Packing(text, needle, s) ==> |s| <= n
    ensures n == 0 <==> !Contains(text, needle)
  {
    hide Find;
    n := 0;
    var pos := Find(text, needle, 0);
    while pos.Some?
      invariant pos.Some? ==> OccursAt(text, needle, pos.value)
      invariant n == 0 ==> pos == Find(text, needle, 0)
      invariant n > 0 ==> Contains(text, needle)
      invariant n + (if pos.None? then 0 else 1 + GreedyCount(text, needle, pos.value + |needle|))
             == GreedyCount(text, needle, 0)
      decreases if pos.Some? then |text| - pos.value + 1 else 0
    {
      n := n + 1;
      pos := Find(text, needle, pos.value + |needle|);
    }
    GreedyIsOptimal(text, needle);
  }
}
