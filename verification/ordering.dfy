/** Python's ordering of `str` values (lexicographic by code point, a proper
    prefix first) and the `sorted` of a key set used by query normalisation. */
module Ordering {

  /** `a < b` on Python strings. */
  predicate Less(a: string, b: string)
    decreases |a|
  {
    |b| > 0 && (|a| == 0 || a[0] < b[0] || (a[0] == b[0] && Less(a[1..], b[1..])))
  }

  lemma {:induction false} LessIrreflexive(a: string)
    ensures !Less(a, a)
    decreases |a|
  {
    if |a| > 0 {
      LessIrreflexive(a[1..]);
    }
  }

  lemma {:induction false} LessTransitive(a: string, b: string, c: string)
    requires Less(a, b) && Less(b, c)
    ensures Less(a, c)
    decreases |a|
  {
    if |a| > 0 && a[0] == b[0] && b[0] == c[0] {
      LessTransitive(a[1..], b[1..], c[1..]);
    }
  }

  /** Any two distinct strings are ordered one way or the other. */
  lemma {:induction false} LessTotal(a: string, b: string)
    requires a != b
    ensures Less(a, b) || Less(b, a)
    decreases |a|
  {
    if |a| > 0 && |b| > 0 && a[0] == b[0] {
      assert a == [a[0]] + a[1..];
      assert b == [b[0]] + b[1..];
      LessTotal(a[1..], b[1..]);
    }
  }

  lemma LessAsymmetric(a: string, b: string)
    requires Less(a, b)
    ensures !Less(b, a)
  {
    if Less(b, a) {
      LessTransitive(a, b, a);
      LessIrreflexive(a);
    }
  }

  /** Every element precedes every later one: sorted and free of duplicates. */
  predicate StrictlyAscending(s: seq<string>) {
    forall i, j :: 0 <= i < j < |s| ==> Less(s[i], s[j])
  }

  function Elems(s: seq<string>): set<string> {
    set x | x in s
  }

  lemma ElemsCons(h: string, t: seq<string>)
    ensures Elems([h] + t) == {h} + Elems(t)
  {
  }

  lemma PrependAscending(h: string, t: seq<string>)
    requires StrictlyAscending(t)
    requires forall j :: 0 <= j < |t| ==> Less(h, t[j])
    ensures StrictlyAscending([h] + t)
  {
  }

  /** Whatever is inserted into the tail stays above the head. */
  lemma HeadBelowInsert(k: string, s: seq<string>, t: seq<string>)
    requires StrictlyAscending(s) && |s| > 0 && Less(s[0], k)
    requires Elems(t) == Elems(s[1..]) + {k}
    ensures forall j :: 0 <= j < |t| ==> Less(s[0], t[j])
  {
    forall j | 0 <= j < |t|
      ensures Less(s[0], t[j])
    {
      assert t[j] in Elems(t);
      if t[j] != k {
        var i :| 0 <= i < |s[1..]| && s[1..][i] == t[j];
        assert s[i + 1] == t[j];
      }
    }
  }

  /** Inserts `k` into a strictly ascending sequence, keeping it strictly
      ascending; a key already present is not inserted twice. */
  function Insert(k: string, s: seq<string>): (r: seq<string>)
    requires StrictlyAscending(s)
    ensures StrictlyAscending(r)
    ensures Elems(r) == Elems(s) + {k}
    decreases |s|
  {
    if |s| == 0 then [k]
    else if k == s[0] then s
    else if Less(k, s[0]) then
      assert forall j :: 0 <= j < |s| ==> Less(k, s[j]) by {
        forall j | 0 <= j < |s| ensures Less(k, s[j]) {
          if j > 0 {
            LessTransitive(k, s[0], s[j]);
          }
        }
      }
      PrependAscending(k, s);
      ElemsCons(k, s);
      [k] + s
    else
      LessTotal(k, s[0]);
      var t := Insert(k, s[1..]);
      ElemsCons(s[0], s[1..]);
      assert s == [s[0]] + s[1..];
      HeadBelowInsert(k, s, t);
      PrependAscending(s[0], t);
      ElemsCons(s[0], t);
      [s[0]] + t
  }

  /** The distinct keys in strictly ascending order. */
  function SortUnique(keys: seq<string>): (r: seq<string>)
    ensures StrictlyAscending(r)
    ensures Elems(r) == Elems(keys)
    decreases |keys|
  {
    if |keys| == 0 then []
    else
      assert Elems(keys) == {keys[0]} + Elems(keys[1..]) by {
        assert keys == [keys[0]] + keys[1..];
      }
      Insert(keys[0], SortUnique(keys[1..]))
  }

  lemma ElemsEmpty(s: seq<string>)
    ensures Elems(s) == {} ==> |s| == 0
  {
    if |s| > 0 {
      assert s[0] in Elems(s);
    }
  }

  /** A set has exactly one strictly ascending enumeration. */
  lemma {:induction false} AscendingUnique(a: seq<string>, b: seq<string>)
    requires StrictlyAscending(a) && StrictlyAscending(b)
    requires Elems(a) == Elems(b)
    ensures a == b
    decreases |a|
  {
    if |a| == 0 {
      ElemsEmpty(b);
    } else {
      assert a[0] in Elems(b);
      assert |b| > 0;
      assert b[0] in Elems(a);
      if a[0] != b[0] {
        var i :| 0 <= i < |a| && a[i] == b[0];
        var j :| 0 <= j < |b| && b[j] == a[0];
        assert Less(a[0], b[0]);
        assert Less(b[0], a[0]);
        LessAsymmetric(a[0], b[0]);
      }
      assert Elems(a[1..]) == Elems(b[1..]) by {
        forall x | x in Elems(a[1..])
          ensures x in Elems(b[1..])
        {
          var i :| 1 <= i < |a| && a[i] == x;
          LessIrreflexive(x);
          assert x != b[0];
          assert x in Elems(b);
        }
        forall x | x in Elems(b[1..])
          ensures x in Elems(a[1..])
        {
          var j :| 1 <= j < |b| && b[j] == x;
          LessIrreflexive(x);
          assert x != a[0];
          assert x in Elems(a);
        }
      }
      AscendingUnique(a[1..], b[1..]);
      assert a == [a[0]] + a[1..];
      assert b == [b[0]] + b[1..];
    }
  }
}
