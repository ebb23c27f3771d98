/** Per-type grouping of the named-entity recogniser's output in
    `extract_pii` (app/pii.py:15-20): every entity tag gets the list of its
    texts, each text kept at most once under case-insensitive comparison,
    first spelling and first-occurrence order preserved. */
module NerGrouping {
  import opened Text
  import opened Dedup

  /** One entity the recogniser found in a sentence: its tag ("PER",
      "LOC", "GPE", "ORG", ...) and its text as written. */
  datatype NerEntity = NerEntity(kind: string, text: string)

  /** The entities of all sentences, sentence by sentence, in the order
      the two nested loops of `extract_pii` visit them. */
  function Flatten(doc: seq<seq<NerEntity>>): seq<NerEntity>
  {
    if doc == [] then [] else Flatten(doc[..|doc| - 1]) + doc[|doc| - 1]
  }

  /** The tags that occur: the keys the dict comprehension of `extract_pii` creates. */
  function KindsOf(ents: seq<NerEntity>): set<string>
  {
    set e | e in ents :: e.kind
  }

  /** The texts of the entities tagged `kind`, in order, duplicates kept. */
  function TextsOf(ents: seq<NerEntity>, kind: string): seq<string>
  {
    if ents == [] then []
    else
      var last := ents[|ents| - 1];
      TextsOf(ents[..|ents| - 1], kind) + (if last.kind == kind then [last.text] else [])
  }

  /** `[e.lower() for e in xs]`. */
  function LowerEach(xs: seq<string>): (r: seq<string>)
    ensures |r| == |xs|
    ensures forall i :: 0 <= i < |xs| ==> r[i] == Lower(xs[i])
  {
    seq(|xs|, i requires 0 <= i < |xs| => Lower(xs[i]))
  }

  /** The list one tag accumulates: a text is appended unless its
      lower-cased form is already among the lower-cased stored texts. */
  function DedupCI(texts: seq<string>): (r: seq<string>)
    ensures |r| <= |texts|
  {
    if texts == [] then []
    else
      var kept := DedupCI(texts[..|texts| - 1]);
      var t := texts[|texts| - 1];
      if Lower(t) in LowerEach(kept) then kept else kept + [t]
  }

  /** The `entities` dict after the loop: each tag that occurs maps to its
      deduplicated texts. */
  function Group(ents: seq<NerEntity>): map<string, seq<string>>
  {
    map k | k in KindsOf(ents) :: DedupCI(TextsOf(ents, k))
  }

  /** `groups.get(kind, [])`. */
  function Get(groups: map<string, seq<string>>, kind: string): seq<string>
  {
    if kind in groups then groups[kind] else []
  }

  /** One iteration of the inner loop: append the entity's text to its
      tag's list unless the list already holds it ignoring case. */
  function AddEntity(groups: map<string, seq<string>>, ent: NerEntity): map<string, seq<string>>
    requires ent.kind in groups
  {
    var stored := groups[ent.kind];
    if Lower(ent.text) in LowerEach(stored) then groups
    else groups[ent.kind := stored + [ent.text]]
  }

  /** One loop step keeps the dict equal to the grouping of the entities
      seen so far. */
  lemma AddEntityStep(groups: map<string, seq<string>>, before: seq<NerEntity>, ent: NerEntity)
    requires ent.kind in groups
    requires forall k :: k in groups ==> groups[k] == DedupCI(TextsOf(before, k))
    ensures AddEntity(groups, ent).Keys == groups.Keys
    ensures forall k :: k in groups ==> AddEntity(groups, ent)[k] == DedupCI(TextsOf(before + [ent], k))
  {
    forall k | k in groups
      ensures AddEntity(groups, ent)[k] == DedupCI(TextsOf(before + [ent], k))
    {
      TextsOfSnoc(before, ent, k);
      if k == ent.kind {
        DedupCISnoc(TextsOf(before, k), ent.text);
      } else {
        assert AddEntity(groups, ent)[k] == groups[k];
        assert TextsOf(before + [ent], k) == TextsOf(before, k);
      }
    }
  }

  lemma TextsOfSnoc(ents: seq<NerEntity>, e: NerEntity, kind: string)
    ensures TextsOf(ents + [e], kind) == TextsOf(ents, kind) + (if e.kind == kind then [e.text] else [])
  {
    assert (ents + [e])[..|ents|] == ents;
  }

  lemma DedupCISnoc(texts: seq<string>, t: string)
    ensures DedupCI(texts + [t]) ==
      (if Lower(t) in LowerEach(DedupCI(texts)) then DedupCI(texts) else DedupCI(texts) + [t])
  {
    assert (texts + [t])[..|texts|] == texts;
  }

  /** The code's list-scanning loop keeps exactly the first spelling of
      each lower-cased text, in first-occurrence order: it equals the
      index-filter reference definition. */
  lemma {:induction false} DedupCIIsFirsts(texts: seq<string>)
    ensures DedupCI(texts) == FirstsBy(texts, Lower, {}, |texts|)
  {
    DedupCIPrefix(texts, |texts|);
    assert texts[..|texts|] == texts;
  }

  lemma {:induction false} DedupCIPrefix(texts: seq<string>, n: nat)
    requires n <= |texts|
    ensures DedupCI(texts[..n]) == FirstsBy(texts, Lower, {}, n)
  {
    if n > 0 {
      DedupCIPrefix(texts, n - 1);
      var t := texts[n - 1];
      assert texts[..n] == texts[..n - 1] + [t];
      DedupCISnoc(texts[..n - 1], t);
      SeenIffNotFirst(texts, n);
    }
  }

  /** The code's membership test on the lower-cased stored texts fails
      exactly for the first occurrence of a lower-cased text. */
  lemma SeenIffNotFirst(texts: seq<string>, n: nat)
    requires 0 < n <= |texts|
    ensures Lower(texts[n - 1]) in LowerEach(FirstsBy(texts, Lower, {}, n - 1)) <==> !FirstOfKey(texts, Lower, n - 1)
  {
    var p := FirstsBy(texts, Lower, {}, n - 1);
    var t := texts[n - 1];
    if Lower(t) in LowerEach(p) {
      FirstsByKept(texts, Lower, {}, n - 1);
      var j :| 0 <= j < |p| && LowerEach(p)[j] == Lower(t);
      var m :| 0 <= m < n - 1 && texts[m] == p[j] && FirstOfKey(texts, Lower, m);
      assert Lower(texts[m]) == Lower(t);
    }
    if !FirstOfKey(texts, Lower, n - 1) {
      FirstsByCovers(texts, Lower, {}, n - 1);
      var m :| 0 <= m < n - 1 && Lower(texts[m]) == Lower(t);
      assert HasKey(p, Lower, Lower(texts[m]));
      var j :| 0 <= j < |p| && Lower(p[j]) == Lower(texts[m]);
      assert LowerEach(p)[j] == Lower(t);
    }
  }

  /** The three promises of the grouping loop for one tag: no two stored
      texts are equal ignoring case; each stored text is the first spelling
      of its lower-cased form among the inputs; and every input text is
      represented by a stored one. */
  lemma DedupCIProperties(texts: seq<string>)
    ensures forall i, j :: 0 <= i < j < |DedupCI(texts)| ==> Lower(DedupCI(texts)[i]) != Lower(DedupCI(texts)[j])
    ensures forall j :: 0 <= j < |DedupCI(texts)| ==>
      exists m :: 0 <= m < |texts| && texts[m] == DedupCI(texts)[j] && FirstOfKey(texts, Lower, m)
    ensures forall m :: 0 <= m < |texts| ==> HasKey(DedupCI(texts), Lower, Lower(texts[m]))
  {
    DedupCIIsFirsts(texts);
    FirstsByKept(texts, Lower, {}, |texts|);
    FirstsByDistinct(texts, Lower, {}, |texts|);
    FirstsByCovers(texts, Lower, {}, |texts|);
  }

  lemma {:induction false} TextsOfAbsent(ents: seq<NerEntity>, kind: string)
    requires kind !in KindsOf(ents)
    ensures TextsOf(ents, kind) == []
  {
    if ents != [] {
      var init := ents[..|ents| - 1];
      assert KindsOf(init) <= KindsOf(ents) by {
        forall k | k in KindsOf(init) ensures k in KindsOf(ents) {
          var e :| e in init && e.kind == k;
          assert e in ents;
        }
      }
      TextsOfAbsent(init, kind);
      assert ents[|ents| - 1] in ents;
    }
  }

  /** Reading a tag from the grouped dict with a default of [] yields the
      deduplicated texts of that tag, whether or not the tag occurs. */
  lemma GetGroup(ents: seq<NerEntity>, kind: string)
    ensures Get(Group(ents), kind) == DedupCI(TextsOf(ents, kind))
  {
    if kind !in KindsOf(ents) {
      TextsOfAbsent(ents, kind);
    }
  }

  lemma {:induction false} FlattenSnoc(doc: seq<seq<NerEntity>>, s: nat)
    requires s < |doc|
    ensures Flatten(doc[..s + 1]) == Flatten(doc[..s]) + doc[s]
  {
    assert doc[..s + 1][..s] == doc[..s];
  }

  lemma {:induction false} FlattenHas(doc: seq<seq<NerEntity>>, s: nat, e: nat)
    requires s < |doc| && e < |doc[s]|
    ensures doc[s][e] in Flatten(doc)
  {
    var init := doc[..|doc| - 1];
    if s == |doc| - 1 {
      assert Flatten(doc) == Flatten(init) + doc[s];
      assert Flatten(doc)[|Flatten(init)| + e] == doc[s][e];
    } else {
      FlattenHas(init, s, e);
      assert Flatten(doc) == Flatten(init) + doc[|doc| - 1];
    }
  }

  /** The two nested loops over sentences and entities, with the dict the
      code builds before them: they compute the grouping `Group`. */
  method GroupEntities(doc: seq<seq<NerEntity>>) returns (groups: map<string, seq<string>>)
    ensures groups == Group(Flatten(doc))
  {
    var all := Flatten(doc);
    groups := map k | k in KindsOf(all) :: [];
    var s := 0;
    while s < |doc|
      invariant 0 <= s <= |doc|
      invariant groups.Keys == KindsOf(all)
      invariant forall k :: k in groups ==> groups[k] == DedupCI(TextsOf(Flatten(doc[..s]), k))
    {
      var sentence := doc[s];
      var e := 0;
      assert Flatten(doc[..s]) + sentence[..0] == Flatten(doc[..s]);
      while e < |sentence|
        invariant 0 <= e <= |sentence|
        invariant groups.Keys == KindsOf(all)
        invariant forall k :: k in groups ==> groups[k] == DedupCI(TextsOf(Flatten(doc[..s]) + sentence[..e], k))
      {
        var ent := sentence[e];
        FlattenHas(doc, s, e);
        assert Flatten(doc[..s]) + sentence[..e + 1] == Flatten(doc[..s]) + sentence[..e] + [ent];
        AddEntityStep(groups, Flatten(doc[..s]) + sentence[..e], ent);
        groups := AddEntity(groups, ent);
        e := e + 1;
      }
      FlattenSnoc(doc, s);
      assert sentence[..|sentence|] == sentence;
      s := s + 1;
    }
    assert doc[..|doc|] == doc;
  }
}
