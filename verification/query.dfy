/** Query normalisation for the signed path: the query is parsed into
    name/value pairs keeping blank values, grouped by name in sorted order, and
    rendered again with blank values dropped. */
module Query {
  import opened Wrappers
  import opened Text
  import opened Ordering

  /** A parsed `(name, value)` pair, in the order it appeared in the query. */
  type Pair = (string, string)

  /** What every pair coming out of the parser satisfies: neither half holds an
      `&` or a `+`, and the name holds no `=`. */
  predicate ParsedPair(p: Pair) {
    '&' !in p.0 && '=' !in p.0 && '+' !in p.0 && '&' !in p.1 && '+' !in p.1
  }

  /** One `name=value` piece: split at the first `=`, a missing `=` gives a blank
      value (`keep_blank_values=True`), and `+` stands for a space in both halves. */
  function ParsePiece(piece: string): (p: Pair)
    ensures '&' !in piece ==> ParsedPair(p)
    ensures '=' !in piece ==> p == (ReplaceChar(piece, '+', ' '), "")
    ensures forall a, b {:trigger a + "=" + b} :: piece == a + "=" + b && '=' !in a ==>
              p == (ReplaceChar(a, '+', ' '), ReplaceChar(b, '+', ' '))
  {
    forall a, b | piece == a + "=" + b && '=' !in a
      ensures SplitOnce(piece, '=') == Some((a, b))
    {
      SplitOnceUnique(a, '=', b);
    }
    match SplitOnce(piece, '=')
    case None => (ReplaceChar(piece, '+', ' '), "")
    case Some((name, value)) => (ReplaceChar(name, '+', ' '), ReplaceChar(value, '+', ' '))
  }

  /** Each piece parsed on its own, in order. */
  function ParseEach(pieces: seq<string>): seq<Pair> {
    seq(|pieces|, i requires 0 <= i < |pieces| => ParsePiece(pieces[i]))
  }

  lemma ParseEachCons(piece: string, pieces: seq<string>)
    ensures ParseEach([piece] + pieces) == [ParsePiece(piece)] + ParseEach(pieces)
  {
  }

  /** The pieces in order, empty ones skipped: one pair per non-empty piece. */
  function ParsePieces(pieces: seq<string>): (r: seq<Pair>)
    requires forall i :: 0 <= i < |pieces| ==> '&' !in pieces[i]
    ensures |r| <= |pieces|
    ensures forall i :: 0 <= i < |r| ==> ParsedPair(r[i])
    ensures r == ParseEach(NonBlank(pieces))
    decreases |pieces|
  {
    if |pieces| == 0 then []
    else
      var rest := ParsePieces(pieces[1..]);
      if pieces[0] == "" then rest
      else
        ParseEachCons(pieces[0], NonBlank(pieces[1..]));
        [ParsePiece(pieces[0])] + rest
  }

  /** The query as name/value pairs in order, blank values kept, without
      percent-decoding: one pair per non-empty `&`-separated piece. */
  function ParseQuery(q: string): (r: seq<Pair>)
    ensures forall i :: 0 <= i < |r| ==> ParsedPair(r[i])
    ensures q == "" ==> r == []
    ensures r == ParseEach(NonBlank(Split(q, '&')))
  {
    ParsePieces(Split(q, '&'))
  }

  function KeyList(pairs: seq<Pair>): seq<string> {
    seq(|pairs|, i requires 0 <= i < |pairs| => pairs[i].0)
  }

  /** The keys of `parse_qs`'s dictionary. */
  function Keys(pairs: seq<Pair>): set<string> {
    Elems(KeyList(pairs))
  }

  /** The values given for `k`, in the order they appeared: exactly the values
      of the pairs named `k`. */
  function ValuesOf(pairs: seq<Pair>, k: string): (r: seq<string>)
    ensures |r| <= |pairs|
    ensures forall v | v in r :: (k, v) in pairs
    ensures forall i :: 0 <= i < |pairs| && pairs[i].0 == k ==> pairs[i].1 in r
    decreases |pairs|
  {
    if |pairs| == 0 then []
    else (if pairs[0].0 == k then [pairs[0].1] else []) + ValuesOf(pairs[1..], k)
  }

  /** The values that are not blank, in their original order. */
  function NonBlank(vs: seq<string>): (r: seq<string>)
    ensures |r| <= |vs|
    ensures forall v :: v in r <==> v in vs && v != ""
    decreases |vs|
  {
    if |vs| == 0 then []
    else (if vs[0] != "" then [vs[0]] else []) + NonBlank(vs[1..])
  }

  /** Values of earlier pairs come before values of later ones. */
  lemma {:induction false} ValuesOfAppend(a: seq<Pair>, b: seq<Pair>, k: string)
    ensures ValuesOf(a + b, k) == ValuesOf(a, k) + ValuesOf(b, k)
    decreases |a|
  {
    if |a| > 0 {
      assert (a + b)[1..] == a[1..] + b;
      ValuesOfAppend(a[1..], b, k);
    } else {
      assert a + b == b;
    }
  }

  /** Dropping blanks keeps the relative order of what remains. */
  lemma {:induction false} NonBlankAppend(a: seq<string>, b: seq<string>)
    ensures NonBlank(a + b) == NonBlank(a) + NonBlank(b)
    decreases |a|
  {
    if |a| > 0 {
      assert (a + b)[1..] == a[1..] + b;
      NonBlankAppend(a[1..], b);
    } else {
      assert a + b == b;
    }
  }

  /** One key of the normalised query with its non-blank values. */
  datatype Entry = Entry(key: string, values: seq<string>)

  function EntryKeys(es: seq<Entry>): seq<string> {
    seq(|es|, i requires 0 <= i < |es| => es[i].key)
  }

  /** The grouping `_normalize_query` performs: one entry per key of the parsed
      query, in strictly ascending key order (so each key exactly once), carrying
      that key's non-blank values in their original order. */
  function Group(pairs: seq<Pair>): (r: seq<Entry>)
    ensures StrictlyAscending(EntryKeys(r))
    ensures Elems(EntryKeys(r)) == Keys(pairs)
    ensures forall i :: 0 <= i < |r| ==> r[i].values == NonBlank(ValuesOf(pairs, r[i].key))
  {
    var ks := SortUnique(KeyList(pairs));
    var r := seq(|ks|, i requires 0 <= i < |ks| => Entry(ks[i], NonBlank(ValuesOf(pairs, ks[i]))));
    assert EntryKeys(r) == ks;
    r
  }

  /** `key=v1,v2,...`, or the bare key when no non-blank value remains. */
  function EntryText(e: Entry): (r: string)
    ensures |e.key| <= |r| && r[..|e.key|] == e.key
    ensures '=' !in e.key ==> ('=' in r <==> |e.values| > 0)
    ensures |e.values| == 0 ==> r == e.key
    ensures |e.values| > 0 ==> r == e.key + "=" + Join(",", e.values)
  {
    if |e.values| > 0 then e.key + "=" + Join(",", e.values) else e.key
  }

  /** The entries joined with `&`: no entries give the empty text, and when no
      entry text holds `&`, splitting at `&` gives back the entry texts in
      order. */
  function Render(es: seq<Entry>): (r: string)
    ensures |es| == 0 ==> r == ""
    ensures |es| > 0 && (forall i :: 0 <= i < |es| ==> '&' !in EntryText(es[i])) ==>
              Split(r, '&') == seq(|es|, i requires 0 <= i < |es| => EntryText(es[i]))
  {
    var texts := seq(|es|, i requires 0 <= i < |es| => EntryText(es[i]));
    if |es| > 0 && forall i :: 0 <= i < |es| ==> '&' !in texts[i] then
      SplitJoin(texts, '&');
      Join("&", texts)
    else Join("&", texts)
  }

  /** The normalised query of the signed path. An empty query stays empty.
      Otherwise, when no bare empty key occurs, the result reads back as the
      grouped entries: one pair per key in ascending order, carrying the key's
      non-blank values joined with `,`. */
  function NormalizeQuery(q: string): (r: string)
    ensures q == "" ==> r == ""
    ensures var g := Group(ParseQuery(q));
            q != "" && |g| == 0 ==> r == ""
    ensures var g := Group(ParseQuery(q));
            q != "" && |g| > 0 ==> Split(r, '&') == seq(|g|, i requires 0 <= i < |g| => EntryText(g[i]))
    ensures NoBareEmptyKey(ParseQuery(q)) ==> ParseQuery(r) == Reparsed(Group(ParseQuery(q)))
  {
    if q == "" then ""
    else
      GroupRendering(ParseQuery(q));
      Render(Group(ParseQuery(q)))
  }

  /** The rendering of a parse's grouping splits back into its entry texts
      and, without a bare empty key, parses back to the grouped pairs. */
  lemma GroupRendering(pairs: seq<Pair>)
    requires forall i :: 0 <= i < |pairs| ==> ParsedPair(pairs[i])
    ensures var g := Group(pairs);
            |g| > 0 ==> Split(Render(g), '&') == seq(|g|, i requires 0 <= i < |g| => EntryText(g[i]))
    ensures var g := Group(pairs);
            NoBareEmptyKey(pairs) && |g| > 0 ==> ParseQuery(Render(g)) == Reparsed(g)
  {
    var g := Group(pairs);
    GroupTextsAvoidAmpersand(pairs);
    if NoBareEmptyKey(pairs) && |g| > 0 {
      GroupIsCanonical(pairs);
      RenderReparses(g);
    }
  }

  /** No parsed key or value holds `&`, so no entry text of their grouping
      does. */
  lemma GroupTextsAvoidAmpersand(pairs: seq<Pair>)
    requires forall i :: 0 <= i < |pairs| ==> ParsedPair(pairs[i])
    ensures forall i :: 0 <= i < |Group(pairs)| ==> '&' !in EntryText(Group(pairs)[i])
  {
    var g := Group(pairs);
    assert Avoids(pairs, '&') by {
      forall i | 0 <= i < |pairs| ensures '&' !in pairs[i].0 && '&' !in pairs[i].1 {
        assert ParsedPair(pairs[i]);
      }
    }
    GroupAvoids(pairs, '&');
    forall i | 0 <= i < |g| ensures '&' !in EntryText(g[i]) {
      if |g[i].values| > 0 {
        JoinExcludes(",", g[i].values, '&');
      }
    }
  }

  // ---------------------------------------------------------------------------
  // Normalising twice is normalising once

  lemma {:induction false} JoinNonEmpty(sep: string, parts: seq<string>)
    requires |parts| >= 1 && parts[0] != ""
    ensures Join(sep, parts) != ""
  {
  }

  lemma {:induction false} JoinOfNonBlankNonEmpty(vs: seq<string>)
    requires |vs| >= 1
    requires forall i :: 0 <= i < |vs| ==> vs[i] != ""
    ensures Join(",", vs) != ""
  {
  }

  /** An entry's text parses back into its key and its comma-joined values. */
  lemma EntryTextParses(e: Entry)
    requires '=' !in e.key && '+' !in e.key && '&' !in e.key
    requires forall i :: 0 <= i < |e.values| ==> '+' !in e.values[i] && '&' !in e.values[i]
    ensures ParsePiece(EntryText(e)) == (e.key, Join(",", e.values))
    ensures '&' !in EntryText(e)
  {
    var w := Join(",", e.values);
    JoinExcludes(",", e.values, '+');
    JoinExcludes(",", e.values, '&');
    ReplaceIdentity(e.key, '+', ' ');
    ReplaceIdentity(w, '+', ' ');
    if |e.values| > 0 {
      SplitOnceUnique(e.key, '=', w);
      assert EntryText(e) == e.key + ['='] + w;
    } else {
      assert e.values == [];
    }
  }

  lemma {:induction false} ReplaceIdentity(s: string, from: char, to: char)
    requires from !in s
    ensures ReplaceChar(s, from, to) == s
  {
    var r := ReplaceChar(s, from, to);
    assert forall i :: 0 <= i < |s| ==> r[i] == s[i];
  }

  /** Non-empty pieces are parsed one pair each, in order. */
  lemma {:induction false} ParsePiecesAllNonEmpty(pieces: seq<string>)
    requires forall i :: 0 <= i < |pieces| ==> '&' !in pieces[i] && pieces[i] != ""
    ensures ParsePieces(pieces) == seq(|pieces|, i requires 0 <= i < |pieces| => ParsePiece(pieces[i]))
    decreases |pieces|
  {
    if |pieces| > 0 {
      ParsePiecesAllNonEmpty(pieces[1..]);
    }
  }

  lemma {:induction false} ValuesOfAbsent(pairs: seq<Pair>, k: string)
    requires forall j :: 0 <= j < |pairs| ==> pairs[j].0 != k
    ensures ValuesOf(pairs, k) == []
    decreases |pairs|
  {
    if |pairs| > 0 {
      ValuesOfAbsent(pairs[1..], k);
    }
  }

  /** A key that occurs once has exactly its one value. */
  lemma {:induction false} ValuesOfUnique(pairs: seq<Pair>, i: nat)
    requires i < |pairs|
    requires forall j :: 0 <= j < |pairs| && j != i ==> pairs[j].0 != pairs[i].0
    ensures ValuesOf(pairs, pairs[i].0) == [pairs[i].1]
    decreases |pairs|
  {
    if i == 0 {
      ValuesOfAbsent(pairs[1..], pairs[0].0);
    } else {
      ValuesOfUnique(pairs[1..], i - 1);
    }
  }

  /** The empty key, if present, has a non-blank value: otherwise its bare text
      is the empty string, an empty piece that a second parse skips. */
  predicate NoBareEmptyKey(pairs: seq<Pair>) {
    "" in Keys(pairs) ==> NonBlank(ValuesOf(pairs, "")) != []
  }

  /** What the grouping of a parse always satisfies, and all that a second
      parse of its rendering relies on. */
  predicate CanonicalEntries(g: seq<Entry>) {
    && StrictlyAscending(EntryKeys(g))
    && (forall i :: 0 <= i < |g| ==>
          '=' !in g[i].key && '+' !in g[i].key && '&' !in g[i].key
          && (g[i].key == "" ==> |g[i].values| > 0))
    && (forall i, m :: 0 <= i < |g| && 0 <= m < |g[i].values| ==>
          g[i].values[m] != "" && '+' !in g[i].values[m] && '&' !in g[i].values[m])
  }

  lemma GroupIsCanonical(pairs: seq<Pair>)
    requires forall i :: 0 <= i < |pairs| ==> ParsedPair(pairs[i])
    requires NoBareEmptyKey(pairs)
    ensures CanonicalEntries(Group(pairs))
  {
    var g := Group(pairs);
    forall i | 0 <= i < |g|
      ensures '=' !in g[i].key && '+' !in g[i].key && '&' !in g[i].key
      ensures g[i].key == "" ==> |g[i].values| > 0
      ensures forall m :: 0 <= m < |g[i].values| ==>
                g[i].values[m] != "" && '+' !in g[i].values[m] && '&' !in g[i].values[m]
    {
      var e := g[i];
      assert e.key in Elems(EntryKeys(g)) by {
        assert EntryKeys(g)[i] == e.key;
      }
      var j :| 0 <= j < |pairs| && pairs[j].0 == e.key;
      assert ParsedPair(pairs[j]);
      forall m | 0 <= m < |e.values|
        ensures e.values[m] != "" && '+' !in e.values[m] && '&' !in e.values[m]
      {
        var v := e.values[m];
        assert v in ValuesOf(pairs, e.key);
        var n :| 0 <= n < |pairs| && pairs[n] == (e.key, v);
        assert ParsedPair(pairs[n]);
      }
    }
  }

  /** The pairs a second parse of a canonical rendering produces. */
  function Reparsed(g: seq<Entry>): seq<Pair> {
    seq(|g|, i requires 0 <= i < |g| => (g[i].key, Join(",", g[i].values)))
  }

  /** Rendering canonical entries and parsing the result yields one pair per
      entry: its key and its comma-joined values. */
  lemma RenderReparses(g: seq<Entry>)
    requires CanonicalEntries(g) && |g| > 0
    ensures Render(g) != ""
    ensures ParseQuery(Render(g)) == Reparsed(g)
  {
    var texts := seq(|g|, i requires 0 <= i < |g| => EntryText(g[i]));
    forall i | 0 <= i < |g|
      ensures ParsePiece(texts[i]) == (g[i].key, Join(",", g[i].values))
      ensures '&' !in texts[i] && texts[i] != ""
    {
      EntryTextParses(g[i]);
    }
    JoinNonEmpty("&", texts);
    SplitJoin(texts, '&');
    ParsePiecesAllNonEmpty(texts);
  }

  /** Each key of the reparsed pairs occurs once, so its group holds only the
      comma-joined value, which renders to the original entry text. */
  lemma RegroupEntryText(g: seq<Entry>, i: nat)
    requires CanonicalEntries(g) && i < |g|
    ensures EntryText(Entry(g[i].key, NonBlank(ValuesOf(Reparsed(g), g[i].key)))) == EntryText(g[i])
  {
    var pairs2 := Reparsed(g);
    var w := Join(",", g[i].values);
    forall j | 0 <= j < |pairs2| && j != i
      ensures pairs2[j].0 != pairs2[i].0
    {
      LessIrreflexive(g[i].key);
      if j < i {
        assert Less(EntryKeys(g)[j], EntryKeys(g)[i]);
      } else {
        assert Less(EntryKeys(g)[i], EntryKeys(g)[j]);
      }
    }
    ValuesOfUnique(pairs2, i);
    if |g[i].values| > 0 {
      JoinOfNonBlankNonEmpty(g[i].values);
      assert NonBlank([w]) == [w];
    } else {
      assert NonBlank([w]) == [];
    }
  }

  /** Entries with the same texts render alike. */
  lemma RenderPointwise(g1: seq<Entry>, g2: seq<Entry>)
    requires |g1| == |g2|
    requires forall i :: 0 <= i < |g1| ==> EntryText(g1[i]) == EntryText(g2[i])
    ensures Render(g1) == Render(g2)
  {
    var t1 := seq(|g1|, i requires 0 <= i < |g1| => EntryText(g1[i]));
    var t2 := seq(|g2|, i requires 0 <= i < |g2| => EntryText(g2[i]));
    assert t1 == t2;
  }

  /** Regrouping canonical entries keeps their keys in their order. */
  lemma RegroupKeys(g: seq<Entry>)
    requires CanonicalEntries(g)
    ensures EntryKeys(Group(Reparsed(g))) == EntryKeys(g)
  {
    var pairs2 := Reparsed(g);
    assert KeyList(pairs2) == EntryKeys(g);
    AscendingUnique(EntryKeys(Group(pairs2)), EntryKeys(g));
  }

  /** Grouping the reparsed pairs renders to the same text again. */
  lemma RegroupRenders(g: seq<Entry>)
    requires CanonicalEntries(g)
    ensures Render(Group(Reparsed(g))) == Render(g)
  {
    var pairs2 := Reparsed(g);
    var g2 := Group(pairs2);
    RegroupKeys(g);
    var k1, k2 := EntryKeys(g), EntryKeys(g2);
    assert |g2| == |k2| == |k1| == |g|;
    forall i | 0 <= i < |g|
      ensures EntryText(g2[i]) == EntryText(g[i])
    {
      assert g2[i].key == k2[i] == k1[i] == g[i].key;
      RegroupEntryText(g, i);
    }
    RenderPointwise(g2, g);
  }

  /** The normalised query is a fixed point of normalisation, so a server that
      normalises the signed query again obtains the same string. */
  lemma NormalizeIdempotent(q: string)
    requires NoBareEmptyKey(ParseQuery(q))
    ensures NormalizeQuery(NormalizeQuery(q)) == NormalizeQuery(q)
  {
    if q != "" {
      var g := Group(ParseQuery(q));
      GroupIsCanonical(ParseQuery(q));
      if |g| > 0 {
        RenderReparses(g);
        RegroupRenders(g);
      }
    }
  }

  // ---------------------------------------------------------------------------
  // Only the per-key value lists matter

  /** Two parses with the same keys and the same values per key normalise alike:
      the order of pieces across different keys does not matter. */
  lemma SameGroupingSameNormal(p1: seq<Pair>, p2: seq<Pair>)
    requires Keys(p1) == Keys(p2)
    requires forall k :: ValuesOf(p1, k) == ValuesOf(p2, k)
    ensures Render(Group(p1)) == Render(Group(p2))
  {
    var g1 := Group(p1);
    var g2 := Group(p2);
    var k1, k2 := EntryKeys(g1), EntryKeys(g2);
    AscendingUnique(k1, k2);
    assert |g1| == |k1| == |k2| == |g2|;
    forall i | 0 <= i < |g1| ensures g1[i] == g2[i] {
      assert g1[i].key == k1[i] == k2[i] == g2[i].key;
    }
    assert g1 == g2;
  }

  lemma ValuesOfPair(x: Pair, y: Pair, k: string)
    ensures ValuesOf([x, y], k) == ValuesOf([x], k) + ValuesOf([y], k)
  {
    assert [x, y][1..] == [y];
    assert [x][1..] == [];
  }

  lemma ValuesOfAround(a: seq<Pair>, m: seq<Pair>, b: seq<Pair>, k: string)
    ensures ValuesOf(a + m + b, k) == ValuesOf(a, k) + ValuesOf(m, k) + ValuesOf(b, k)
  {
    ValuesOfAppend(a + m, b, k);
    ValuesOfAppend(a, m, k);
  }

  /** Two adjacent pairs with different keys contribute the same values for
      any key in either order. */
  lemma SwapPairValues(x: Pair, y: Pair, k: string)
    requires x.0 != y.0
    ensures ValuesOf([x, y], k) == ValuesOf([y, x], k)
  {
    ValuesOfPair(x, y, k);
    ValuesOfPair(y, x, k);
    if x.0 == k {
      assert ValuesOf([y], k) == [];
    } else {
      assert ValuesOf([x], k) == [];
    }
  }

  lemma SwapValues(a: seq<Pair>, x: Pair, y: Pair, b: seq<Pair>, k: string)
    requires x.0 != y.0
    ensures ValuesOf(a + [x, y] + b, k) == ValuesOf(a + [y, x] + b, k)
  {
    ValuesOfAround(a, [x, y], b, k);
    ValuesOfAround(a, [y, x], b, k);
    SwapPairValues(x, y, k);
  }

  /** Two pair lists holding the same pairs have the same keys. */
  lemma SameMembersSameKeys(p1: seq<Pair>, p2: seq<Pair>)
    requires forall i :: 0 <= i < |p1| ==> p1[i] in p2
    requires forall i :: 0 <= i < |p2| ==> p2[i] in p1
    ensures Keys(p1) == Keys(p2)
  {
    forall k | k in Keys(p1) ensures k in Keys(p2) {
      var i :| 0 <= i < |p1| && KeyList(p1)[i] == k;
      var j :| 0 <= j < |p2| && p2[j] == p1[i];
      assert KeyList(p2)[j] == k;
    }
    forall k | k in Keys(p2) ensures k in Keys(p1) {
      var i :| 0 <= i < |p2| && KeyList(p2)[i] == k;
      var j :| 0 <= j < |p1| && p1[j] == p2[i];
      assert KeyList(p1)[j] == k;
    }
  }

  /** Swapping two adjacent pieces with different keys leaves the normalised
      query unchanged. */
  lemma SwapDistinctKeys(a: seq<Pair>, x: Pair, y: Pair, b: seq<Pair>)
    requires x.0 != y.0
    ensures Render(Group(a + [x, y] + b)) == Render(Group(a + [y, x] + b))
  {
    var p1 := a + [x, y] + b;
    var p2 := a + [y, x] + b;
    forall k
      ensures ValuesOf(p1, k) == ValuesOf(p2, k)
    {
      SwapValues(a, x, y, b, k);
    }
    assert forall i :: 0 <= i < |p1| ==> p1[i] in p2 by {
      forall i | 0 <= i < |p1| ensures p1[i] in p2 {
        if i == |a| {
          assert p2[|a| + 1] == p1[i];
        } else if i == |a| + 1 {
          assert p2[|a|] == p1[i];
        } else {
          assert p2[i] == p1[i];
        }
      }
    }
    assert forall i :: 0 <= i < |p2| ==> p2[i] in p1 by {
      forall i | 0 <= i < |p2| ensures p2[i] in p1 {
        if i == |a| {
          assert p1[|a| + 1] == p2[i];
        } else if i == |a| + 1 {
          assert p1[|a|] == p2[i];
        } else {
          assert p1[i] == p2[i];
        }
      }
    }
    SameMembersSameKeys(p1, p2);
    SameGroupingSameNormal(p1, p2);
  }

  // ---------------------------------------------------------------------------
  // Normalisation writes no character of its own besides the separators

  /** No piece of a split holds a character the split string lacks. */
  lemma {:induction false} SplitPiecesAvoid(s: string, sep: char, c: char)
    requires c !in s
    ensures forall i :: 0 <= i < |Split(s, sep)| ==> c !in Split(s, sep)[i]
    decreases |s|
  {
    if |s| > 0 {
      assert c !in s[1..] by {
        assert forall i :: 0 <= i < |s[1..]| ==> s[1..][i] == s[i + 1];
      }
      SplitPiecesAvoid(s[1..], sep, c);
    }
  }

  /** Replacing `+` by a space adds no character other than the space. */
  lemma ReplaceAvoids(s: string, c: char)
    requires c !in s && c != ' '
    ensures c !in ReplaceChar(s, '+', ' ')
  {
    var r := ReplaceChar(s, '+', ' ');
    forall i | 0 <= i < |r| ensures r[i] != c {
      assert r[i] == (if s[i] == '+' then ' ' else s[i]);
    }
  }

  lemma ParsePieceAvoids(piece: string, c: char)
    requires c !in piece && c != ' '
    ensures c !in ParsePiece(piece).0 && c !in ParsePiece(piece).1
  {
    match SplitOnce(piece, '=') {
      case None =>
        ReplaceAvoids(piece, c);
      case Some((name, value)) =>
        assert piece == name + "=" + value;
        assert c !in name && c !in value;
        ReplaceAvoids(name, c);
        ReplaceAvoids(value, c);
    }
  }

  /** Neither half of any pair holds `c`. */
  predicate Avoids(pairs: seq<Pair>, c: char) {
    forall i :: 0 <= i < |pairs| ==> c !in pairs[i].0 && c !in pairs[i].1
  }

  lemma {:induction false} ParsePiecesAvoid(pieces: seq<string>, c: char)
    requires forall i :: 0 <= i < |pieces| ==> '&' !in pieces[i] && c !in pieces[i]
    requires c != ' '
    ensures Avoids(ParsePieces(pieces), c)
    decreases |pieces|
  {
    if |pieces| > 0 {
      ParsePiecesAvoid(pieces[1..], c);
      if pieces[0] != "" {
        ParsePieceAvoids(pieces[0], c);
      }
    }
  }

  /** Grouping keeps keys and values as they were parsed. */
  lemma GroupAvoids(pairs: seq<Pair>, c: char)
    requires Avoids(pairs, c)
    ensures forall i :: 0 <= i < |Group(pairs)| ==>
              c !in Group(pairs)[i].key
              && forall m :: 0 <= m < |Group(pairs)[i].values| ==> c !in Group(pairs)[i].values[m]
  {
    var g := Group(pairs);
    forall i | 0 <= i < |g|
      ensures c !in g[i].key
      ensures forall m :: 0 <= m < |g[i].values| ==> c !in g[i].values[m]
    {
      assert EntryKeys(g)[i] == g[i].key;
      assert g[i].key in Keys(pairs);
      var j :| 0 <= j < |KeyList(pairs)| && KeyList(pairs)[j] == g[i].key;
      assert pairs[j].0 == g[i].key;
      forall m | 0 <= m < |g[i].values| ensures c !in g[i].values[m] {
        var v := g[i].values[m];
        assert v in NonBlank(ValuesOf(pairs, g[i].key));
        assert (g[i].key, v) in pairs;
      }
    }
  }

  lemma RenderAvoids(g: seq<Entry>, c: char)
    requires c != '&' && c != '=' && c != ','
    requires forall i :: 0 <= i < |g| ==>
               c !in g[i].key && forall m :: 0 <= m < |g[i].values| ==> c !in g[i].values[m]
    ensures c !in Render(g)
  {
    var texts := seq(|g|, i requires 0 <= i < |g| => EntryText(g[i]));
    forall i | 0 <= i < |g| ensures c !in texts[i] {
      if |g[i].values| > 0 {
        JoinExcludes(",", g[i].values, c);
      }
    }
    JoinExcludes("&", texts, c);
  }

  /** The normalised query holds only characters of the query, spaces standing
      for `+`, and the separators `=`, `,` and `&`. */
  lemma NormalizeAvoids(q: string, c: char)
    requires c !in q && c != ' ' && c != '=' && c != ',' && c != '&'
    ensures c !in NormalizeQuery(q)
  {
    if q != "" {
      SplitPiecesAvoid(q, '&', c);
      ParsePiecesAvoid(Split(q, '&'), c);
      GroupAvoids(ParseQuery(q), c);
      RenderAvoids(Group(ParseQuery(q)), c);
    }
  }
}
