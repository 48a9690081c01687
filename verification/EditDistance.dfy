/** Byte strings, single-byte edits, and the edit distance that the matcher's table computes.
    `Lev` is the recurrence of the source, which on equal last bytes looks only at the diagonal.
    `LevIsDistance` shows that this is still the length of a shortest script of insertions,
    deletions and substitutions, each made at any position of the current string.
 */
module EditDistance {
  import opened Common

  function Min(x: int, y: int): int {
    if x < y then x else y
  }

  function Last(s: Text): byte
    requires s != []
  {
    s[|s| - 1]
  }

  function Init(s: Text): Text
    requires s != []
  {
    s[..|s| - 1]
  }

  ghost function Lev(a: Text, b: Text): nat
    decreases |a| + |b|
  {
    if a == [] then |b|
    else if b == [] then |a|
    else if Last(a) == Last(b) then Lev(Init(a), Init(b))
    else 1 + Min(Lev(Init(a), Init(b)), Min(Lev(Init(a), b), Lev(a, Init(b))))
  }

  lemma LevStep(a: Text, b: Text)
    requires a != [] && b != []
    ensures Lev(a, b) == if Last(a) == Last(b) then Lev(Init(a), Init(b))
                         else 1 + Min(Lev(Init(a), Init(b)), Min(Lev(Init(a), b), Lev(a, Init(b))))
  {
  }

  // ----- Edit scripts

  datatype Edit =
    | Insert(at: nat, c: byte)
    | Delete(at: nat)
    | Substitute(at: nat, c: byte)

  ghost predicate CanApply(e: Edit, s: Text) {
    if e.Insert? then e.at <= |s| else e.at < |s|
  }

  ghost function Apply(e: Edit, s: Text): Text
    requires CanApply(e, s)
  {
    match e
    case Insert(i, c) => s[..i] + [c] + s[i..]
    case Delete(i) => s[..i] + s[i + 1..]
    case Substitute(i, c) => s[..i] + [c] + s[i + 1..]
  }

  /** The script, applied edit by edit, turns `a` into `b`. */
  ghost predicate Transforms(script: seq<Edit>, a: Text, b: Text) {
    if script == [] then a == b
    else CanApply(script[0], a) && Transforms(script[1..], Apply(script[0], a), b)
  }

  ghost predicate IsDistance(a: Text, b: Text, d: nat) {
    && (exists script :: |script| == d && Transforms(script, a, b))
    && (forall script :: Transforms(script, a, b) ==> d <= |script|)
  }

  // ----- A shortest script exists

  lemma {:induction false} TransformsChain(s1: seq<Edit>, s2: seq<Edit>, a: Text, b: Text, c: Text)
    requires Transforms(s1, a, b) && Transforms(s2, b, c)
    ensures Transforms(s1 + s2, a, c)
  {
    hide Apply, CanApply;
    if s1 == [] {
      assert s1 + s2 == s2;
    } else {
      TransformsChain(s1[1..], s2, Apply(s1[0], a), b, c);
      assert (s1 + s2)[1..] == s1[1..] + s2 && (s1 + s2)[0] == s1[0];
    }
  }

  /** Edits of a string leave anything appended to it alone. */
  lemma ApplyUnderSuffix(e: Edit, a: Text, suffix: Text)
    requires CanApply(e, a)
    ensures CanApply(e, a + suffix) && Apply(e, a + suffix) == Apply(e, a) + suffix
  {
    assert (a + suffix)[..e.at] == a[..e.at];
    assert (a + suffix)[e.at..] == a[e.at..] + suffix;
    if !e.Insert? {
      assert (a + suffix)[e.at + 1..] == a[e.at + 1..] + suffix;
    }
  }

  lemma {:induction false} TransformsUnderSuffix(script: seq<Edit>, a: Text, b: Text, suffix: Text)
    requires Transforms(script, a, b)
    ensures Transforms(script, a + suffix, b + suffix)
  {
    if script != [] {
      ApplyUnderSuffix(script[0], a, suffix);
      hide Apply;
      TransformsUnderSuffix(script[1..], Apply(script[0], a), b, suffix);
    }
  }

  lemma DeleteAll(a: Text) returns (script: seq<Edit>)
    ensures |script| == |a| && Transforms(script, a, [])
  {
    hide Transforms, Apply, CanApply;
    if a == [] {
      script := [];
      NoEdit(a);
    } else {
      var rest := DeleteAll(a[1..]);
      DeleteFirst(a);
      OneEdit(Delete(0), a);
      TransformsChain([Delete(0)], rest, a, a[1..], []);
      script := [Delete(0)] + rest;
    }
  }

  lemma InsertAll(b: Text) returns (script: seq<Edit>)
    ensures |script| == |b| && Transforms(script, [], b)
  {
    hide Transforms, Apply, CanApply;
    if b == [] {
      script := [];
      NoEdit(b);
    } else {
      var rest := InsertAll(Init(b));
      var e := Insert(|b| - 1, Last(b));
      InsertLast(b);
      OneEdit(e, Init(b));
      TransformsChain(rest, [e], [], Init(b), b);
      script := rest + [e];
    }
  }

  lemma DeleteFirst(a: Text)
    requires a != []
    ensures CanApply(Delete(0), a) && Apply(Delete(0), a) == a[1..]
  {
  }

  lemma NoEdit(a: Text)
    ensures Transforms([], a, a)
  {
  }

  lemma InsertLast(b: Text)
    requires b != []
    ensures CanApply(Insert(|b| - 1, Last(b)), Init(b)) && Apply(Insert(|b| - 1, Last(b)), Init(b)) == b
  {
    assert b == Init(b) + [Last(b)];
  }

  lemma OneEdit(e: Edit, a: Text)
    requires CanApply(e, a)
    ensures Transforms([e], a, Apply(e, a))
  {
    hide Apply;
    assert [e][1..] == [];
  }

  /** A script for the common part, followed by one edit at the end. */
  lemma ThenEdit(script: seq<Edit>, a: Text, b: Text, suffix: Text, e: Edit, c: Text)
    requires Transforms(script, a, b)
    requires CanApply(e, b + suffix) && Apply(e, b + suffix) == c
    ensures Transforms(script + [e], a + suffix, c)
  {
    TransformsUnderSuffix(script, a, b, suffix);
    assert Transforms([e], b + suffix, c);
    TransformsChain(script, [e], a + suffix, b + suffix, c);
  }

  lemma ShortestScript(a: Text, b: Text) returns (script: seq<Edit>)
    ensures |script| == Lev(a, b) && Transforms(script, a, b)
    decreases |a| + |b|
  {
    if a == [] {
      script := InsertAll(b);
    } else if b == [] {
      script := DeleteAll(a);
    } else {
      var a', b' := Init(a), Init(b);
      var x, y := Last(a), Last(b);
      assert a == a' + [x] && b == b' + [y];
      if x == y {
        script := ShortestScript(a', b');
        TransformsUnderSuffix(script, a', b', [x]);
      } else if Lev(a, b) == 1 + Lev(a', b') {
        script := ShortestScript(a', b');
        ThenEdit(script, a', b', [x], Substitute(|b'|, y), b);
        script := script + [Substitute(|b'|, y)];
      } else if Lev(a, b) == 1 + Lev(a', b) {
        script := ShortestScript(a', b);
        ThenEdit(script, a', b, [x], Delete(|b|), b);
        script := script + [Delete(|b|)];
      } else {
        script := ShortestScript(a, b');
        assert a + [] == a;
        ThenEdit(script, a, b', [], Insert(|b'|, y), b);
        script := script + [Insert(|b'|, y)];
      }
    }
  }

  // ----- No script is shorter

  /** Dropping the last byte of either string moves the distance by at most one. */
  lemma {:induction false} LevLipschitz(a: Text, b: Text)
    ensures a != [] ==> -1 <= Lev(a, b) - Lev(Init(a), b) <= 1
    ensures b != [] ==> -1 <= Lev(a, b) - Lev(a, Init(b)) <= 1
    decreases |a| + |b|
  {
    if a != [] && b != [] {
      LevLipschitz(Init(a), b);
      LevLipschitz(a, Init(b));
      LevLipschitz(Init(a), Init(b));
    }
  }

  lemma LevAppend(p: Text, c: byte, s: Text)
    ensures -1 <= Lev(p + [c], s) - Lev(p, s) <= 1
  {
    LevLipschitz(p + [c], s);
    assert Init(p + [c]) == p;
  }

  lemma LevReplaceLast(p: Text, c: byte, d: byte, s: Text)
    ensures Lev(p + [c], s) <= Lev(p + [d], s) + 1
  {
    assert Init(p + [c]) == p && Init(p + [d]) == p;
    LevAppend(p, c, s);
    LevAppend(p, d, s);
    if s != [] {
      LevLipschitz(p, s);
      LevAppend(p, c, Init(s));
      LevAppend(p, d, Init(s));
    }
  }

  /** If x is never more than one further away than y, neither is x + q than y + q. */
  lemma {:induction false} LevCommonSuffix(x: Text, y: Text, q: Text, b: Text)
    requires forall s: Text :: Lev(x, s) <= Lev(y, s) + 1
    ensures Lev(x + q, b) <= Lev(y + q, b) + 1
    decreases |q| + |b|
  {
    if q == [] {
      assert x + q == x && y + q == y;
    } else {
      assert Init(x + q) == x + Init(q) && Init(y + q) == y + Init(q);
      LevCommonSuffix(x, y, Init(q), b);
      if b == [] {
        assert Lev(x, []) <= Lev(y, []) + 1;
      } else {
        LevCommonSuffix(x, y, Init(q), Init(b));
        LevCommonSuffix(x, y, q, Init(b));
      }
    }
  }

  /** One edit, anywhere, lowers the distance to any target by at most one. */
  lemma LevOneEdit(e: Edit, a: Text, b: Text)
    requires CanApply(e, a)
    ensures Lev(a, b) <= Lev(Apply(e, a), b) + 1
  {
    var p := a[..e.at];
    match e
    case Insert(i, c) =>
      assert a == p + a[i..];
      forall s: Text ensures Lev(p, s) <= Lev(p + [c], s) + 1 { LevAppend(p, c, s); }
      LevCommonSuffix(p, p + [c], a[i..], b);
    case Delete(i) =>
      assert a == p + [a[i]] + a[i + 1..];
      forall s: Text ensures Lev(p + [a[i]], s) <= Lev(p, s) + 1 { LevAppend(p, a[i], s); }
      LevCommonSuffix(p + [a[i]], p, a[i + 1..], b);
    case Substitute(i, c) =>
      assert a == p + [a[i]] + a[i + 1..];
      forall s: Text ensures Lev(p + [a[i]], s) <= Lev(p + [c], s) + 1 { LevReplaceLast(p, a[i], c, s); }
      LevCommonSuffix(p + [a[i]], p + [c], a[i + 1..], b);
  }

  lemma {:induction false} LevSame(a: Text)
    ensures Lev(a, a) == 0
    decreases |a|
  {
    if a != [] { LevSame(Init(a)); }
  }

  lemma {:induction false} NoShorterScript(script: seq<Edit>, a: Text, b: Text)
    requires Transforms(script, a, b)
    ensures Lev(a, b) <= |script|
    decreases |script|
  {
    if script == [] {
      LevSame(a);
    } else {
      LevOneEdit(script[0], a, b);
      NoShorterScript(script[1..], Apply(script[0], a), b);
    }
  }

  /** The recurrence gives the length of a shortest edit script. */
  lemma LevIsDistance(a: Text, b: Text)
    ensures IsDistance(a, b, Lev(a, b))
  {
    var shortest := ShortestScript(a, b);
    forall script | Transforms(script, a, b) ensures Lev(a, b) <= |script| {
      NoShorterScript(script, a, b);
    }
  }

  /** A distance is determined by its definition, so any other correct algorithm agrees with `Lev`. */
  lemma DistanceIsLev(a: Text, b: Text, d: nat)
    requires IsDistance(a, b, d)
    ensures d == Lev(a, b)
  {
    var shortest := ShortestScript(a, b);
    var script :| |script| == d && Transforms(script, a, b);
    NoShorterScript(script, a, b);
  }

  lemma {:induction false} LevBounds(a: Text, b: Text)
    ensures Lev(a, b) <= if |a| < |b| then |b| else |a|
    ensures Lev(a, b) >= |a| - |b| && Lev(a, b) >= |b| - |a|
    decreases |a| + |b|
  {
    if a != [] && b != [] {
      LevBounds(Init(a), Init(b));
      LevBounds(Init(a), b);
      LevBounds(a, Init(b));
    }
  }

  lemma {:induction false} LevZero(a: Text, b: Text)
    ensures Lev(a, b) == 0 <==> a == b
    decreases |a|
  {
    if a == b {
      LevSame(a);
    } else if a != [] && b != [] && Last(a) == Last(b) {
      LevZero(Init(a), Init(b));
      assert a == Init(a) + [Last(a)] && b == Init(b) + [Last(b)];
    }
  }
}
