/** Worked normalisation examples, first for any keys and values of the right
    shape, then for the literal strings. */
module QueryExamples {
  import opened Text
  import opened Ordering
  import opened Query

  /** A key that survives parsing and rendering unchanged. */
  predicate PlainKey(k: string) {
    k != "" && '=' !in k && '&' !in k && '+' !in k
  }

  /** A non-blank value that survives parsing and rendering unchanged. */
  predicate PlainValue(v: string) {
    v != "" && '&' !in v && '+' !in v
  }

  lemma PieceParses(k: string, v: string)
    requires '=' !in k && '+' !in k && '+' !in v
    ensures ParsePiece(k + "=" + v) == (k, v)
  {
    SplitOnceUnique(k, '=', v);
    ReplaceIdentity(k, '+', ' ');
    ReplaceIdentity(v, '+', ' ');
  }

  lemma PieceText(k: string, v: string)
    requires PlainKey(k) && '&' !in v
    ensures '&' !in k + "=" + v && k + "=" + v != ""
  {
  }

  /** A group is determined by its key sequence. */
  lemma GroupFromKeys(pairs: seq<Pair>, ks: seq<string>)
    requires EntryKeys(Group(pairs)) == ks
    ensures Group(pairs) == seq(|ks|, i requires 0 <= i < |ks| => Entry(ks[i], NonBlank(ValuesOf(pairs, ks[i]))))
  {
    var g := Group(pairs);
    assert |g| == |EntryKeys(g)|;
    forall i | 0 <= i < |g| ensures g[i].key == ks[i] {
      assert EntryKeys(g)[i] == g[i].key;
    }
  }

  lemma OneKeySet(pairs: seq<Pair>, k: string)
    requires |pairs| > 0 && forall j :: 0 <= j < |pairs| ==> pairs[j].0 == k
    ensures EntryKeys(Group(pairs)) == [k]
  {
    assert KeyList(pairs)[0] == k;
    assert Keys(pairs) == {k};
    assert Elems([k]) == {k};
    AscendingUnique(EntryKeys(Group(pairs)), [k]);
  }

  /** A group whose pairs all carry one key has that key alone. */
  lemma GroupOneKey(pairs: seq<Pair>, k: string)
    requires |pairs| > 0 && forall j :: 0 <= j < |pairs| ==> pairs[j].0 == k
    ensures Group(pairs) == [Entry(k, NonBlank(ValuesOf(pairs, k)))]
  {
    OneKeySet(pairs, k);
    GroupFromKeys(pairs, [k]);
  }

  lemma TwoKeySet(pairs: seq<Pair>, a: string, b: string)
    requires Less(a, b) && Keys(pairs) == {a, b}
    ensures EntryKeys(Group(pairs)) == [a, b]
  {
    assert Elems([a, b]) == {a, b};
    assert StrictlyAscending([a, b]);
    AscendingUnique(EntryKeys(Group(pairs)), [a, b]);
  }

  /** A group over two keys lists the smaller first. */
  lemma GroupTwoKeys(pairs: seq<Pair>, a: string, b: string)
    requires Less(a, b) && Keys(pairs) == {a, b}
    ensures Group(pairs) == [Entry(a, NonBlank(ValuesOf(pairs, a))), Entry(b, NonBlank(ValuesOf(pairs, b)))]
  {
    TwoKeySet(pairs, a, b);
    GroupFromKeys(pairs, [a, b]);
  }

  lemma JoinTwo(sep: string, p1: string, p2: string)
    ensures Join(sep, [p1, p2]) == p1 + sep + p2
  {
    assert [p1, p2][1..] == [p2];
  }

  lemma JoinThree(sep: string, p1: string, p2: string, p3: string)
    ensures Join(sep, [p1, p2, p3]) == p1 + sep + p2 + sep + p3
  {
    assert [p1, p2, p3][1..] == [p2, p3];
    JoinTwo(sep, p2, p3);
  }

  lemma {:induction false} NonBlankKeeps(vs: seq<string>)
    requires forall i :: 0 <= i < |vs| ==> vs[i] != ""
    ensures NonBlank(vs) == vs
    decreases |vs|
  {
    if |vs| > 0 {
      NonBlankKeeps(vs[1..]);
    }
  }

  lemma ValuesOfOne(x: string, y: string, k: string)
    ensures ValuesOf([(x, y)], k) == if x == k then [y] else []
  {
    assert [(x, y)][1..] == [];
  }

  /** The whole normalisation, given the parse and the grouping. */
  lemma NormalizeFrom(q: string, pairs: seq<Pair>, g: seq<Entry>)
    requires q != "" && ParseQuery(q) == pairs && Group(pairs) == g
    ensures NormalizeQuery(q) == Render(g)
  {
  }

  lemma RenderOne(e: Entry)
    ensures Render([e]) == EntryText(e)
  {
    var es := [e];
    assert seq(|es|, i requires 0 <= i < |es| => EntryText(es[i])) == [EntryText(e)];
  }

  lemma RenderTwo(e1: Entry, e2: Entry)
    ensures Render([e1, e2]) == EntryText(e1) + "&" + EntryText(e2)
  {
    var es := [e1, e2];
    var ts := seq(|es|, i requires 0 <= i < |es| => EntryText(es[i]));
    assert ts == [EntryText(e1), EntryText(e2)];
    JoinTwo("&", EntryText(e1), EntryText(e2));
  }

  lemma BareParse(k: string)
    requires PlainKey(k)
    ensures ParseQuery(k + "=") == [(k, "")]
  {
    var q := k + "=";
    PieceText(k, "");
    SplitNoSeparator(q, '&');
    PieceParses(k, "");
    ParsePiecesAllNonEmpty([q]);
  }

  lemma BareGroup(k: string)
    ensures Group([(k, "")]) == [Entry(k, [])]
  {
    GroupOneKey([(k, "")], k);
    ValuesOfOne(k, "", k);
    assert [""][1..] == [];
  }

  /** A key given only a blank value is emitted bare. */
  lemma BareKey(k: string)
    requires PlainKey(k)
    ensures NormalizeQuery(k + "=") == k
  {
    BareParse(k);
    BareGroup(k);
    NormalizeFrom(k + "=", [(k, "")], [Entry(k, [])]);
    RenderOne(Entry(k, []));
  }

  lemma SplitTwo(p1: string, p2: string)
    requires '&' !in p1 && '&' !in p2
    ensures Split(p1 + "&" + p2, '&') == [p1, p2]
  {
    JoinTwo("&", p1, p2);
    SplitJoin([p1, p2], '&');
  }

  lemma ParseTwo(p1: string, p2: string)
    requires '&' !in p1 && '&' !in p2 && p1 != "" && p2 != ""
    ensures ParsePieces([p1, p2]) == [ParsePiece(p1), ParsePiece(p2)]
  {
    ParsePiecesAllNonEmpty([p1, p2]);
  }

  lemma MergedParse(k: string, v1: string, v2: string)
    requires PlainKey(k) && PlainValue(v1) && PlainValue(v2)
    ensures ParseQuery((k + "=" + v1) + "&" + (k + "=" + v2)) == [(k, v1), (k, v2)]
  {
    var p1, p2 := k + "=" + v1, k + "=" + v2;
    PieceText(k, v1);
    PieceText(k, v2);
    SplitTwo(p1, p2);
    ParseTwo(p1, p2);
    PieceParses(k, v1);
    PieceParses(k, v2);
  }

  lemma MergedGroup(k: string, v1: string, v2: string)
    requires v1 != "" && v2 != ""
    ensures Group([(k, v1), (k, v2)]) == [Entry(k, [v1, v2])]
  {
    var pairs := [(k, v1), (k, v2)];
    GroupOneKey(pairs, k);
    assert pairs == [(k, v1)] + [(k, v2)];
    ValuesOfAppend([(k, v1)], [(k, v2)], k);
    ValuesOfOne(k, v1, k);
    ValuesOfOne(k, v2, k);
    NonBlankKeeps([v1, v2]);
  }

  lemma MergedRender(k: string, v1: string, v2: string)
    ensures Render([Entry(k, [v1, v2])]) == k + "=" + v1 + "," + v2
  {
    RenderOne(Entry(k, [v1, v2]));
    JoinTwo(",", v1, v2);
  }

  /** The values of one key are merged with commas in their original order. */
  lemma MergedValues(k: string, v1: string, v2: string)
    requires PlainKey(k) && PlainValue(v1) && PlainValue(v2)
    ensures NormalizeQuery((k + "=" + v1) + "&" + (k + "=" + v2)) == k + "=" + v1 + "," + v2
  {
    var q := (k + "=" + v1) + "&" + (k + "=" + v2);
    MergedParse(k, v1, v2);
    MergedGroup(k, v1, v2);
    NormalizeFrom(q, [(k, v1), (k, v2)], [Entry(k, [v1, v2])]);
    MergedRender(k, v1, v2);
  }

  lemma SplitThree(p1: string, p2: string, p3: string)
    requires '&' !in p1 && '&' !in p2 && '&' !in p3
    ensures Split(p1 + "&" + p2 + "&" + p3, '&') == [p1, p2, p3]
  {
    JoinThree("&", p1, p2, p3);
    SplitJoin([p1, p2, p3], '&');
  }

  lemma ParseThree(p1: string, p2: string, p3: string)
    requires '&' !in p1 && '&' !in p2 && '&' !in p3
    requires p1 != "" && p2 != "" && p3 != ""
    ensures ParsePieces([p1, p2, p3]) == [ParsePiece(p1), ParsePiece(p2), ParsePiece(p3)]
  {
    ParsePiecesAllNonEmpty([p1, p2, p3]);
  }

  lemma SortedParse(a: string, b: string, va: string, vb: string)
    requires PlainKey(a) && PlainKey(b) && PlainValue(va) && PlainValue(vb)
    ensures ParseQuery((b + "=" + vb) + "&" + (a + "=" + va) + "&" + (a + "="))
         == [(b, vb), (a, va), (a, "")]
  {
    var p1, p2, p3 := b + "=" + vb, a + "=" + va, a + "=";
    PieceText(b, vb);
    PieceText(a, va);
    PieceText(a, "");
    SplitThree(p1, p2, p3);
    ParseThree(p1, p2, p3);
    PieceParses(b, vb);
    PieceParses(a, va);
    PieceParses(a, "");
  }

  /** The values of the three pairs for one of the two keys. */
  lemma ValuesOfThree(x: Pair, y: Pair, z: Pair, k: string)
    ensures ValuesOf([x, y, z], k)
         == (if x.0 == k then [x.1] else []) + (if y.0 == k then [y.1] else []) + (if z.0 == k then [z.1] else [])
  {
    var yz := [y] + [z];
    assert [x, y, z] == [x] + yz;
    ValuesOfAppend([y], [z], k);
    ValuesOfAppend([x], yz, k);
    ValuesOfOne(x.0, x.1, k);
    ValuesOfOne(y.0, y.1, k);
    ValuesOfOne(z.0, z.1, k);
    AppendThree(ValuesOf([x], k), ValuesOf([y], k), ValuesOf([z], k));
  }

  lemma AppendThree(p: seq<string>, q: seq<string>, r: seq<string>)
    ensures p + (q + r) == p + q + r
  {
  }

  lemma SortedValuesSmall(a: string, b: string, va: string, vb: string)
    requires a != b && va != ""
    ensures NonBlank(ValuesOf([(b, vb), (a, va), (a, "")], a)) == [va]
  {
    ValuesOfThree((b, vb), (a, va), (a, ""), a);
    assert ValuesOf([(b, vb), (a, va), (a, "")], a) == [va, ""];
    assert [va, ""][1..] == [""] && [""][1..] == [];
  }

  lemma SortedValuesLarge(a: string, b: string, va: string, vb: string)
    requires a != b && vb != ""
    ensures NonBlank(ValuesOf([(b, vb), (a, va), (a, "")], b)) == [vb]
  {
    ValuesOfThree((b, vb), (a, va), (a, ""), b);
    assert ValuesOf([(b, vb), (a, va), (a, "")], b) == [vb];
    NonBlankKeeps([vb]);
  }

  lemma SortedKeySet(a: string, b: string, va: string, vb: string)
    ensures Keys([(b, vb), (a, va), (a, "")]) == {a, b}
  {
    var pairs := [(b, vb), (a, va), (a, "")];
    assert KeyList(pairs) == [b, a, a];
    assert Elems([b, a, a]) == {a, b};
  }

  lemma SortedGroup(a: string, b: string, va: string, vb: string)
    requires Less(a, b) && va != "" && vb != ""
    ensures Group([(b, vb), (a, va), (a, "")]) == [Entry(a, [va]), Entry(b, [vb])]
  {
    LessIrreflexive(a);
    SortedKeySet(a, b, va, vb);
    GroupTwoKeys([(b, vb), (a, va), (a, "")], a, b);
    SortedValuesSmall(a, b, va, vb);
    SortedValuesLarge(a, b, va, vb);
  }

  lemma SortedRender(a: string, b: string, va: string, vb: string)
    ensures Render([Entry(a, [va]), Entry(b, [vb])]) == a + "=" + va + "&" + b + "=" + vb
  {
    RenderTwo(Entry(a, [va]), Entry(b, [vb]));
    assert Join(",", [va]) == va;
    assert Join(",", [vb]) == vb;
  }

  /** Blank values are dropped and the keys come out in ascending order. */
  lemma SortedKeys(a: string, b: string, va: string, vb: string)
    requires PlainKey(a) && PlainKey(b) && PlainValue(va) && PlainValue(vb) && Less(a, b)
    ensures NormalizeQuery((b + "=" + vb) + "&" + (a + "=" + va) + "&" + (a + "="))
         == a + "=" + va + "&" + b + "=" + vb
  {
    var q := (b + "=" + vb) + "&" + (a + "=" + va) + "&" + (a + "=");
    SortedParse(a, b, va, vb);
    SortedGroup(a, b, va, vb);
    NormalizeFrom(q, [(b, vb), (a, va), (a, "")], [Entry(a, [va]), Entry(b, [vb])]);
    SortedRender(a, b, va, vb);
  }

  // ---------------------------------------------------------------------------
  // A bare empty key beside another key: normalising is not idempotent

  lemma EmptyKeyParse(k: string, v: string)
    requires PlainKey(k) && PlainValue(v)
    ensures ParseQuery("=" + "&" + (k + "=" + v)) == [("", ""), (k, v)]
  {
    var p1, p2 := "=", k + "=" + v;
    assert p1 == "" + "=" + "";
    PieceText(k, v);
    SplitTwo(p1, p2);
    ParseTwo(p1, p2);
    PieceParses("", "");
    PieceParses(k, v);
  }

  lemma EmptyKeyGroup(k: string, v: string)
    requires k != "" && v != ""
    ensures Group([("", ""), (k, v)]) == [Entry("", []), Entry(k, [v])]
  {
    var pairs := [("", ""), (k, v)];
    assert Less("", k);
    assert KeyList(pairs) == ["", k];
    assert Elems(["", k]) == {"", k};
    GroupTwoKeys(pairs, "", k);
    assert pairs == [("", "")] + [(k, v)];
    ValuesOfAppend([("", "")], [(k, v)], "");
    ValuesOfAppend([("", "")], [(k, v)], k);
    ValuesOfOne("", "", "");
    ValuesOfOne(k, v, "");
    ValuesOfOne("", "", k);
    ValuesOfOne(k, v, k);
    assert [""][1..] == [];
    assert NonBlank([""]) == [];
    NonBlankKeeps([v]);
  }

  lemma EmptyKeyRender(k: string, v: string)
    ensures Render([Entry("", []), Entry(k, [v])]) == "&" + (k + "=" + v)
  {
    RenderTwo(Entry("", []), Entry(k, [v]));
    assert Join(",", [v]) == v;
    assert "" + "&" + (k + "=" + v) == "&" + (k + "=" + v);
  }

  lemma LeadingEmptyParse(k: string, v: string)
    requires PlainKey(k) && PlainValue(v)
    ensures ParseQuery("&" + (k + "=" + v)) == [(k, v)]
  {
    var p := k + "=" + v;
    PieceText(k, v);
    SplitTwo("", p);
    assert "" + "&" + p == "&" + p;
    assert ["", p][1..] == [p];
    ParsePiecesAllNonEmpty([p]);
    PieceParses(k, v);
  }

  lemma SingleGroup(k: string, v: string)
    requires v != ""
    ensures Group([(k, v)]) == [Entry(k, [v])]
  {
    GroupOneKey([(k, v)], k);
    ValuesOfOne(k, v, k);
    NonBlankKeeps([v]);
  }

  lemma SingleRender(k: string, v: string)
    ensures Render([Entry(k, [v])]) == k + "=" + v
  {
    RenderOne(Entry(k, [v]));
    assert Join(",", [v]) == v;
  }

  /** A bare empty key before a plain piece `k=v` renders as an empty text, so
      the normalised query starts with `&`; normalising that drops the empty
      piece, and the second result differs from the first. */
  lemma EmptyKeyNotIdempotent(k: string, v: string)
    requires PlainKey(k) && PlainValue(v)
    ensures NormalizeQuery("=" + "&" + (k + "=" + v)) == "&" + (k + "=" + v)
    ensures NormalizeQuery("&" + (k + "=" + v)) == k + "=" + v
    ensures NormalizeQuery(NormalizeQuery("=" + "&" + (k + "=" + v)))
         != NormalizeQuery("=" + "&" + (k + "=" + v))
  {
    var q1, q2 := "=" + "&" + (k + "=" + v), "&" + (k + "=" + v);
    EmptyKeyParse(k, v);
    EmptyKeyGroup(k, v);
    NormalizeFrom(q1, [("", ""), (k, v)], [Entry("", []), Entry(k, [v])]);
    EmptyKeyRender(k, v);
    LeadingEmptyParse(k, v);
    SingleGroup(k, v);
    NormalizeFrom(q2, [(k, v)], [Entry(k, [v])]);
    SingleRender(k, v);
    assert |k + "=" + v| < |q2|;
  }

  /** A bare empty key alone normalises to the empty query, which is its own
      normalisation: the precondition of idempotence is not necessary. */
  lemma LoneEmptyKey()
    ensures NormalizeQuery("=") == ""
    ensures NormalizeQuery(NormalizeQuery("=")) == NormalizeQuery("=")
  {
    assert "=" == "" + "=" + "";
    SplitNoSeparator("=", '&');
    PieceParses("", "");
    ParsePiecesAllNonEmpty(["="]);
    GroupOneKey([("", "")], "");
    ValuesOfOne("", "", "");
    assert [""][1..] == [];
    assert NonBlank([""]) == [];
    NormalizeFrom("=", [("", "")], [Entry("", [])]);
    RenderOne(Entry("", []));
  }

  lemma EmptyKeyText()
    ensures "=&a=1" == "=" + "&" + ("a" + "=" + "1")
    ensures "&a=1" == "&" + ("a" + "=" + "1") && "a=1" == "a" + "=" + "1"
  {
  }

  lemma EmptyKeyExample()
    ensures NormalizeQuery("=&a=1") == "&a=1" && NormalizeQuery("&a=1") == "a=1"
  {
    EmptyKeyNotIdempotent("a", "1");
    EmptyKeyText();
  }

  lemma BareKeyExample() ensures NormalizeQuery("d=") == "d" {
    BareKey("d");
  }

  lemma MergedText()
    ensures "c=1&c=2" == ("c" + "=" + "1") + "&" + ("c" + "=" + "2")
    ensures "c=1,2" == "c" + "=" + "1" + "," + "2"
  {
  }

  lemma MergedExample() ensures NormalizeQuery("c=1&c=2") == "c=1,2" {
    MergedValues("c", "1", "2");
    MergedText();
  }

  lemma SortedText()
    ensures "b=2&a=1&a=" == ("b" + "=" + "2") + "&" + ("a" + "=" + "1") + "&" + ("a" + "=")
    ensures "a=1&b=2" == "a" + "=" + "1" + "&" + "b" + "=" + "2"
  {
  }

  lemma SortedExample() ensures NormalizeQuery("b=2&a=1&a=") == "a=1&b=2" {
    assert Less("a", "b");
    SortedKeys("a", "b", "1", "2");
    SortedText();
  }
}
