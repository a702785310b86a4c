/** Counting the elements of a sequence that satisfy a test, and how one update changes the count. */
module Counting {

  function Count<T>(s: seq<T>, p: T -> bool): nat {
    if s == [] then 0 else (if p(s[0]) then 1 else 0) + Count(s[1..], p)
  }

  lemma {:induction false} CountUpdate<T>(s: seq<T>, i: nat, x: T, p: T -> bool)
    requires i < |s|
    ensures Count(s[i := x], p) + (if p(s[i]) then 1 else 0) == Count(s, p) + (if p(x) then 1 else 0)
  {
    if i == 0 {
      assert s[i := x][1..] == s[1..];
    } else {
      assert s[i := x][1..] == s[1..][i - 1 := x];
      CountUpdate(s[1..], i - 1, x, p);
    }
  }

  lemma {:induction false} CountPositive<T>(s: seq<T>, p: T -> bool)
    ensures Count(s, p) > 0 <==> exists i :: 0 <= i < |s| && p(s[i])
    ensures Count(s, p) <= |s|
    ensures Count(s, p) == |s| <==> forall i :: 0 <= i < |s| ==> p(s[i])
  {
    if s != [] {
      CountPositive(s[1..], p);
      if exists i :: 0 <= i < |s| && p(s[i]) {
        var i :| 0 <= i < |s| && p(s[i]);
        assert i > 0 ==> p(s[1..][i - 1]);
      }
      if Count(s[1..], p) > 0 {
        var j :| 0 <= j < |s[1..]| && p(s[1..][j]);
        assert p(s[j + 1]);
      }
      if forall i :: 0 <= i < |s| ==> p(s[i]) {
        assert forall j :: 0 <= j < |s[1..]| ==> p(s[1..][j]);
      }
      if p(s[0]) && Count(s[1..], p) == |s[1..]| {
        forall i | 0 <= i < |s| ensures p(s[i]) {
          assert i > 0 ==> s[i] == s[1..][i - 1];
        }
      }
    }
  }

  lemma {:induction false} CountAppend<T>(s: seq<T>, t: seq<T>, p: T -> bool)
    ensures Count(s + t, p) == Count(s, p) + Count(t, p)
  {
    if s == [] {
      assert s + t == t;
    } else {
      assert (s + t)[1..] == s[1..] + t;
      CountAppend(s[1..], t, p);
    }
  }

  /** One element more at the end. */
  lemma {:induction false} CountSnoc<T>(s: seq<T>, k: nat, p: T -> bool)
    requires k < |s|
    ensures Count(s[..k + 1], p) == Count(s[..k], p) + (if p(s[k]) then 1 else 0)
  {
    assert s[..k + 1] == s[..k] + [s[k]];
    CountAppend(s[..k], [s[k]], p);
  }

  /** The places before `k` where the test holds. */
  ghost function Places<T>(s: seq<T>, k: nat, p: T -> bool): set<int>
    requires k <= |s|
  {
    set i | 0 <= i < k && p(s[i])
  }

  lemma {:induction false} CountUpTo<T>(s: seq<T>, k: nat, p: T -> bool)
    requires k <= |s|
    ensures Count(s[..k], p) == |Places(s, k, p)|
  {
    if k > 0 {
      CountUpTo(s, k - 1, p);
      CountSnoc(s, k - 1, p);
      var before, now := Places(s, k - 1, p), Places(s, k, p);
      assert now == if p(s[k - 1]) then before + {k - 1} else before;
    }
  }

  /** The count is the number of places where the test holds. */
  lemma {:induction false} CountIsSize<T>(s: seq<T>, p: T -> bool)
    ensures Count(s, p) == |Places(s, |s|, p)|
  {
    CountUpTo(s, |s|, p);
    assert s[..|s|] == s;
  }
}
