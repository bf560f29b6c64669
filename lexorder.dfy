/** Python's ordering of strings (code point by code point, a proper prefix
    first) and `sorted(set(names))`: the one strictly increasing list that
    holds exactly the given names. */
module LexOrder {

  /** `a < b` on Python strings. */
  predicate Less(a: string, b: string)
    decreases |a|
  {
    if |a| == 0 then |b| > 0
    else if |b| == 0 then false
    else a[0] < b[0] || (a[0] == b[0] && Less(a[1..], b[1..]))
  }

  lemma {:induction false} LessIrreflexive(a: string)
    ensures !Less(a, a)
    decreases |a|
  {
    if |a| > 0 { LessIrreflexive(a[1..]); }
  }

  lemma {:induction false} LessTransitive(a: string, b: string, c: string)
    requires Less(a, b) && Less(b, c)
    ensures Less(a, c)
    decreases |a|
  {
    if |a| > 0 && |b| > 0 && |c| > 0 && a[0] == b[0] && b[0] == c[0] {
      LessTransitive(a[1..], b[1..], c[1..]);
    }
  }

  /** Any two strings are equal or ordered one way, and never both ways. */
  lemma {:induction false} LessTrichotomy(a: string, b: string)
    ensures a == b || Less(a, b) || Less(b, a)
    ensures !(Less(a, b) && Less(b, a))
    decreases |a|
  {
    if |a| > 0 && |b| > 0 && a[0] == b[0] {
      LessTrichotomy(a[1..], b[1..]);
      if a[1..] == b[1..] {
        assert a == [a[0]] + a[1..] && b == [b[0]] + b[1..];
      }
    }
  }

  function Elems(s: seq<string>): set<string> {
    set x | x in s
  }

  predicate StrictlySorted(s: seq<string>) {
    forall i, j :: 0 <= i < j < |s| ==> Less(s[i], s[j])
  }

  /** Adds `x` to a strictly increasing list, keeping it strictly increasing
      and free of duplicates. */
  function InsertUnique(x: string, s: seq<string>): (r: seq<string>)
    decreases |s|
  {
    if s == [] then [x]
    else if x == s[0] then s
    else if Less(x, s[0]) then [x] + s
    else [s[0]] + InsertUnique(x, s[1..])
  }

  lemma ElemsCons(y: string, t: seq<string>)
    ensures Elems([y] + t) == {y} + Elems(t)
  {
    assert forall z :: z in [y] + t <==> z == y || z in t;
  }

  /** Inserting adds `x` to the names held and nothing else. */
  lemma {:induction false} InsertUniqueElems(x: string, s: seq<string>)
    ensures Elems(InsertUnique(x, s)) == Elems(s) + {x}
    decreases |s|
  {
    if s == [] {
      ElemsCons(x, []);
    } else if x == s[0] {
      assert s[0] in s;
    } else if Less(x, s[0]) {
      ElemsCons(x, s);
    } else {
      var t := InsertUnique(x, s[1..]);
      InsertUniqueElems(x, s[1..]);
      assert InsertUnique(x, s) == [s[0]] + t;
      ElemsCons(s[0], t);
      ElemsCons(s[0], s[1..]);
      assert [s[0]] + s[1..] == s;
    }
  }

  lemma {:induction false} InsertUniqueCorrect(x: string, s: seq<string>)
    requires StrictlySorted(s)
    ensures StrictlySorted(InsertUnique(x, s))
    ensures Elems(InsertUnique(x, s)) == Elems(s) + {x}
    decreases |s|
  {
    InsertUniqueElems(x, s);
    if s == [] {
    } else if x == s[0] {
    } else if Less(x, s[0]) {
      forall z | z in s ensures Less(x, z) {
        if z != s[0] {
          var k :| 0 < k < |s| && s[k] == z;
          LessTransitive(x, s[0], z);
        }
      }
      SortedCons(x, s);
    } else {
      LessTrichotomy(x, s[0]);
      var t := InsertUnique(x, s[1..]);
      InsertUniqueCorrect(x, s[1..]);
      forall z | z in t ensures Less(s[0], z) {
        assert z in Elems(t);
        if z != x {
          var k :| 0 <= k < |s[1..]| && s[1..][k] == z;
          assert s[k + 1] == z;
        }
      }
      SortedCons(s[0], t);
    }
  }

  /** A name before a strictly increasing list of greater names. */
  lemma SortedCons(y: string, t: seq<string>)
    requires StrictlySorted(t) && forall z :: z in t ==> Less(y, z)
    ensures StrictlySorted([y] + t)
  {
    var r := [y] + t;
    forall i, j | 0 <= i < j < |r| ensures Less(r[i], r[j]) {
      if i == 0 {
        assert r[j] == t[j - 1];
      } else {
        assert r[i] == t[i - 1] && r[j] == t[j - 1];
      }
    }
  }

  /** Every finite set of names has a strictly increasing listing. */
  lemma {:induction false} SortedListingExists(names: set<string>)
    ensures exists s :: StrictlySorted(s) && Elems(s) == names
    decreases names
  {
    if names == {} {
      assert StrictlySorted([]) && Elems([]) == names;
    } else {
      var x :| x in names;
      SortedListingExists(names - {x});
      var s :| StrictlySorted(s) && Elems(s) == names - {x};
      InsertUniqueCorrect(x, s);
      assert StrictlySorted(InsertUnique(x, s)) && Elems(InsertUnique(x, s)) == names;
    }
  }

  /** Two strictly increasing lists that hold the same names are the same list. */
  lemma {:induction false} SortedListingUnique(a: seq<string>, b: seq<string>)
    requires StrictlySorted(a) && StrictlySorted(b) && Elems(a) == Elems(b)
    ensures a == b
    decreases |a|
  {
    if a == [] {
      assert forall k :: 0 <= k < |b| ==> b[k] in Elems(b);
    } else {
      assert a[0] in Elems(a);
      assert b != [];
      assert b[0] in Elems(b);
      if a[0] != b[0] {
        var j :| 0 <= j < |b| && b[j] == a[0];
        var i :| 0 <= i < |a| && a[i] == b[0];
        assert Less(b[0], a[0]);
        assert Less(a[0], b[0]);
        LessTrichotomy(a[0], b[0]);
        assert false;
      }
      forall k | 1 <= k < |a| ensures a[k] != a[0] {
        LessIrreflexive(a[0]);
      }
      forall k | 1 <= k < |b| ensures b[k] != b[0] {
        LessIrreflexive(b[0]);
      }
      assert Elems(a[1..]) == Elems(a) - {a[0]} by {
        assert forall y :: y in a <==> y == a[0] || y in a[1..];
      }
      assert Elems(b[1..]) == Elems(b) - {b[0]} by {
        assert forall y :: y in b <==> y == b[0] || y in b[1..];
      }
      SortedListingUnique(a[1..], b[1..]);
      assert a == [a[0]] + a[1..] && b == [b[0]] + b[1..];
    }
  }

  /** `sorted(set(names))`: the strictly increasing listing of `names`. */
  ghost function SortedListing(names: set<string>): (s: seq<string>)
    ensures StrictlySorted(s) && Elems(s) == names
  {
    SortedListingExists(names);
    var s :| StrictlySorted(s) && Elems(s) == names; s
  }
}
