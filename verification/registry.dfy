/** The shared set of already-reported spans in `extract_pii`
    (`found_spans`, app/pii.py:13) and the two result lists it guards
    (`found_snils`, `found_other_pii`). Every stage after the recogniser
    offers candidates: a candidate is appended exactly when its key is not
    yet in the set, and appending it adds the key. */
module SpanRegistry {
  import opened Dedup

  /** One reported item, `{"type": kind, "text": text}`. */
  datatype Entry = Entry(kind: string, text: string)

  /** A detection offered to the registry, with the key it is deduplicated
      by: the digits-only span for regex matches, the lower-cased text for
      the address, birth place and e-mail stages. */
  datatype Candidate = Candidate(key: string, entry: Entry)

  /** `found_snils`, `found_other_pii` and `found_spans`. */
  datatype Registry = Registry(snils: seq<Entry>, other: seq<Entry>, spans: set<string>)

  /** The pattern type whose matches go to `found_snils`. */
  const SnilsType := "RUS_SNILS"

  /** The state before the first stage: both lists and the set empty. */
  const Empty := Registry([], [], {})

  function KeyOf(c: Candidate): string
  {
    c.key
  }

  function KeySet(cs: seq<Candidate>): set<string>
  {
    set c | c in cs :: c.key
  }

  /** How many entries the two lists hold together. */
  function Size(r: Registry): nat
  {
    |r.snils| + |r.other|
  }

  /** Offers one candidate: skipped when its key is already claimed,
      otherwise appended to the list its type selects and its key claimed. */
  function Claim(r: Registry, c: Candidate): (r': Registry)
    ensures r'.spans == r.spans + {c.key}
    ensures r.snils <= r'.snils && r.other <= r'.other
    ensures c.key in r.spans <==> Size(r') == Size(r)
    ensures c.key !in r.spans ==> Size(r') == Size(r) + 1
    ensures c.key !in r.spans && c.entry.kind == SnilsType ==> r'.snils == r.snils + [c.entry]
    ensures c.key !in r.spans && c.entry.kind != SnilsType ==> r'.other == r.other + [c.entry]
  {
    if c.key in r.spans then r
    else if c.entry.kind == SnilsType then Registry(r.snils + [c.entry], r.other, r.spans + {c.key})
    else Registry(r.snils, r.other + [c.entry], r.spans + {c.key})
  }

  /** Offers the candidates one after another, in order. The lists only
      grow, and the set gains exactly the candidates' keys. */
  function ClaimAll(r: Registry, cs: seq<Candidate>): (r': Registry)
    ensures r'.spans == r.spans + KeySet(cs)
    ensures r.snils <= r'.snils && r.other <= r'.other
  {
    if cs == [] then r
    else
      var init := cs[..|cs| - 1];
      var c := cs[|cs| - 1];
      var mid := ClaimAll(r, init);
      KeySetSnoc(init, c);
      Claim(mid, c)
  }

  /** The number of entries offering `cs` appends equals the number of
      keys it newly claims. */
  lemma {:induction false} ClaimAllCounts(r: Registry, cs: seq<Candidate>)
    ensures Size(ClaimAll(r, cs)) == Size(r) + |KeySet(cs) - r.spans|
  {
    if cs != [] {
      var init := cs[..|cs| - 1];
      var c := cs[|cs| - 1];
      ClaimAllCounts(r, init);
      KeySetSnoc(init, c);
      NewKeysSnoc(r.spans, KeySet(init), c.key);
    }
  }

  lemma KeySetSnoc(cs: seq<Candidate>, c: Candidate)
    ensures KeySet(cs + [c]) == KeySet(cs) + {c.key}
  {
    assert forall d :: d in cs + [c] <==> d in cs || d == c;
  }

  lemma NewKeysSnoc(taken: set<string>, ks: set<string>, k: string)
    ensures k in taken + ks ==> (ks + {k}) - taken == ks - taken
    ensures k !in taken + ks ==> |(ks + {k}) - taken| == |ks - taken| + 1
  {
    if k !in taken + ks {
      assert (ks + {k}) - taken == (ks - taken) + {k};
    }
  }

  /** The entries of `cs` that go to the SNILS list (`snils`) or to the
      other list (`!snils`), in order. */
  ghost function Bucket(cs: seq<Candidate>, snils: bool): seq<Entry>
  {
    if cs == [] then []
    else
      var c := cs[|cs| - 1];
      Bucket(cs[..|cs| - 1], snils) + (if (c.entry.kind == SnilsType) == snils then [c.entry] else [])
  }

  lemma BucketSnoc(cs: seq<Candidate>, c: Candidate, snils: bool)
    ensures Bucket(cs + [c], snils) == Bucket(cs, snils) + (if (c.entry.kind == SnilsType) == snils then [c.entry] else [])
  {
    assert (cs + [c])[..|cs|] == cs;
  }

  /** What the registry reports, stated without the set: offering `cs`
      appends, to each list, exactly the candidates that are the first of
      their key in `cs` and whose key was not claimed before. */
  lemma {:induction false} ClaimAllIsFirsts(r: Registry, cs: seq<Candidate>)
    ensures ClaimAll(r, cs) == Registry(
      r.snils + Bucket(FirstsBy(cs, KeyOf, r.spans, |cs|), true),
      r.other + Bucket(FirstsBy(cs, KeyOf, r.spans, |cs|), false),
      r.spans + KeySet(cs))
  {
    ClaimAllPrefix(r, cs, |cs|);
    assert cs[..|cs|] == cs;
  }

  /** The same, for the empty registry every call of `extract_pii` starts from. */
  lemma ClaimAllFromEmpty(cs: seq<Candidate>)
    ensures ClaimAll(Empty, cs) == Registry(
      Bucket(FirstsBy(cs, KeyOf, {}, |cs|), true),
      Bucket(FirstsBy(cs, KeyOf, {}, |cs|), false),
      KeySet(cs))
  {
    ClaimAllIsFirsts(Empty, cs);
    var f := FirstsBy(cs, KeyOf, {}, |cs|);
    assert [] + Bucket(f, true) == Bucket(f, true);
    assert [] + Bucket(f, false) == Bucket(f, false);
  }

  lemma {:induction false} ClaimAllPrefix(r: Registry, cs: seq<Candidate>, n: nat)
    requires n <= |cs|
    ensures ClaimAll(r, cs[..n]) == Registry(
      r.snils + Bucket(FirstsBy(cs, KeyOf, r.spans, n), true),
      r.other + Bucket(FirstsBy(cs, KeyOf, r.spans, n), false),
      r.spans + KeySet(cs[..n]))
  {
    if n > 0 {
      var c := cs[n - 1];
      assert cs[..n] == cs[..n - 1] + [c];
      ClaimAllPrefix(r, cs, n - 1);
      var p := FirstsBy(cs, KeyOf, r.spans, n - 1);
      var isNew := KeyOf(c) !in r.spans && FirstOfKey(cs, KeyOf, n - 1);
      assert ClaimAll(r, cs[..n]) == Claim(ClaimAll(r, cs[..n - 1]), c);
      assert FirstsBy(cs, KeyOf, r.spans, n) == p + (if isNew then [c] else []);
      KeySetSnoc(cs[..n - 1], c);
      assert KeySet(cs[..n]) == KeySet(cs[..n - 1]) + {c.key};
      ClaimedIffNotFirst(r.spans, cs, n);
      ClaimStep(r, p, KeySet(cs[..n - 1]), c, isNew);
      var mid := ClaimAll(r, cs[..n - 1]);
      assert mid == Registry(r.snils + Bucket(p, true), r.other + Bucket(p, false), r.spans + KeySet(cs[..n - 1]));
      assert isNew <==> c.key !in mid.spans;
    }
  }

  /** One candidate offered to a registry that holds the buckets of `p`:
      the result holds the buckets of `p`, extended by the candidate when
      it is new. */
  lemma ClaimStep(r: Registry, p: seq<Candidate>, ks: set<string>, c: Candidate, isNew: bool)
    requires isNew <==> c.key !in r.spans + ks
    ensures Claim(Registry(r.snils + Bucket(p, true), r.other + Bucket(p, false), r.spans + ks), c)
      == Registry(
        r.snils + Bucket(p + (if isNew then [c] else []), true),
        r.other + Bucket(p + (if isNew then [c] else []), false),
        r.spans + (ks + {c.key}))
  {
    if isNew {
      BucketSnoc(p, c, true);
      BucketSnoc(p, c, false);
    } else {
      assert p + [] == p;
    }
  }

  /** A candidate's key is already claimed exactly when it was claimed
      before the stages ran or an earlier candidate carries the same key. */
  lemma ClaimedIffNotFirst(taken: set<string>, cs: seq<Candidate>, n: nat)
    requires 0 < n <= |cs|
    ensures cs[n - 1].key in taken + KeySet(cs[..n - 1]) <==>
      !(KeyOf(cs[n - 1]) !in taken && FirstOfKey(cs, KeyOf, n - 1))
  {
    var c := cs[n - 1];
    if c.key in KeySet(cs[..n - 1]) {
      var d :| d in cs[..n - 1] && d.key == c.key;
      var m :| 0 <= m < n - 1 && cs[..n - 1][m] == d;
      assert KeyOf(cs[m]) == KeyOf(c);
    }
    if c.key !in taken && !FirstOfKey(cs, KeyOf, n - 1) {
      var m :| 0 <= m < n - 1 && KeyOf(cs[m]) == KeyOf(c);
      assert cs[..n - 1][m] == cs[m];
    }
  }

  /** Offering two lists of candidates one after the other is offering
      their concatenation: the stages share one set. */
  lemma {:induction false} ClaimAllAppend(r: Registry, a: seq<Candidate>, b: seq<Candidate>)
    ensures ClaimAll(r, a + b) == ClaimAll(ClaimAll(r, a), b)
    decreases |b|
  {
    if b == [] {
      assert a + b == a;
    } else {
      var b' := b[..|b| - 1];
      assert (a + b)[..|a + b| - 1] == a + b';
      ClaimAllAppend(r, a, b');
    }
  }

  /** No two candidates the registry reports share a key, and none of them
      has a key claimed before. */
  lemma ReportedKeysDistinct(taken: set<string>, cs: seq<Candidate>)
    ensures forall i, j :: 0 <= i < j < |FirstsBy(cs, KeyOf, taken, |cs|)| ==>
      FirstsBy(cs, KeyOf, taken, |cs|)[i].key != FirstsBy(cs, KeyOf, taken, |cs|)[j].key
    ensures forall j :: 0 <= j < |FirstsBy(cs, KeyOf, taken, |cs|)| ==>
      FirstsBy(cs, KeyOf, taken, |cs|)[j].key !in taken
  {
    FirstsByDistinct(cs, KeyOf, taken, |cs|);
    FirstsByKept(cs, KeyOf, taken, |cs|);
  }
}
