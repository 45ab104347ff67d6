/**
 * The java.lang.String operations the controllers rely on: toLowerCase,
 * contains, trim and split on a one-character pattern. Case mapping is
 * restricted to ASCII letters.
 */
module JavaString {

  /** Character case mapping restricted to ASCII: 'A'..'Z' become 'a'..'z'. */
  function LowerChar(c: char): (r: char)
    ensures 'A' <= c <= 'Z' ==> r as int == c as int + 32
    ensures !('A' <= c <= 'Z') ==> r == c
  {
    if 'A' <= c <= 'Z' then (c as int + 32) as char else c
  }

  /** String.toLowerCase: every character mapped on its own. */
  function ToLowerCase(s: string): (r: string)
    ensures |r| == |s|
    ensures forall i :: 0 <= i < |s| ==> r[i] == LowerChar(s[i])
  {
    if |s| == 0 then "" else [LowerChar(s[0])] + ToLowerCase(s[1..])
  }

  /** t occurs in s starting at position i. */
  predicate OccursAt(s: string, t: string, i: int)
  {
    0 <= i && i + |t| <= |s| && s[i..i + |t|] == t
  }

  /**
   * String.contains: a left-to-right scan for t. The empty string occurs in
   * every string.
   */
  predicate Contains(s: string, t: string)
    decreases |s|
  {
    (|t| <= |s| && s[..|t|] == t) || (|s| > 0 && Contains(s[1..], t))
  }

  /** The scan finds t exactly when t occurs at some position of s. */
  lemma {:induction false} ContainsIffOccurs(s: string, t: string)
    ensures Contains(s, t) <==> exists i :: OccursAt(s, t, i)
    decreases |s|
  {
    if |t| <= |s| && s[..|t|] == t {
      assert OccursAt(s, t, 0);
    } else if |s| > 0 {
      ContainsIffOccurs(s[1..], t);
      if Contains(s[1..], t) {
        var i :| OccursAt(s[1..], t, i);
        assert s[i + 1..i + 1 + |t|] == s[1..][i..i + |t|];
        assert OccursAt(s, t, i + 1);
      }
      if exists i :: OccursAt(s, t, i) {
        var i :| OccursAt(s, t, i);
        assert i != 0;
        assert s[1..][i - 1..i - 1 + |t|] == s[i..i + |t|];
        assert OccursAt(s[1..], t, i - 1);
      }
    } else {
      assert forall i :: !OccursAt(s, t, i);
    }
  }

  /** t occurs at position i of s once s is lower-cased (t itself is compared as is). */
  predicate OccursAtIgnoringCase(s: string, t: string, i: int)
  {
    0 <= i && i + |t| <= |s| && forall k :: 0 <= k < |t| ==> LowerChar(s[i + k]) == t[k]
  }

  lemma LowerOccursAt(s: string, t: string, i: int)
    ensures OccursAt(ToLowerCase(s), t, i) <==> OccursAtIgnoringCase(s, t, i)
  {
    var l := ToLowerCase(s);
    if 0 <= i && i + |t| <= |s| {
      if l[i..i + |t|] == t {
        forall k | 0 <= k < |t|
          ensures LowerChar(s[i + k]) == t[k]
        {
          assert l[i..i + |t|][k] == l[i + k];
        }
      }
      if OccursAtIgnoringCase(s, t, i) {
        assert forall k :: 0 <= k < |t| ==> l[i..i + |t|][k] == t[k];
      }
    }
  }

  /** Lower-casing s and then calling contains is an ASCII case-insensitive search. */
  lemma ContainsLowerIffOccursIgnoringCase(s: string, t: string)
    ensures Contains(ToLowerCase(s), t) <==> exists i :: OccursAtIgnoringCase(s, t, i)
  {
    ContainsIffOccurs(ToLowerCase(s), t);
    forall i
      ensures OccursAt(ToLowerCase(s), t, i) <==> OccursAtIgnoringCase(s, t, i)
    {
      LowerOccursAt(s, t, i);
    }
  }

  /** The characters String.trim strips: every code point up to and including the space. */
  predicate IsTrimmable(c: char)
  {
    c <= ' '
  }

  /** The leading part of String.trim. */
  function TrimStart(s: string): (r: string)
    ensures |r| <= |s| && r == s[|s| - |r|..]
    ensures forall i :: 0 <= i < |s| - |r| ==> IsTrimmable(s[i])
    ensures |r| > 0 ==> !IsTrimmable(r[0])
    decreases |s|
  {
    if |s| > 0 && IsTrimmable(s[0]) then TrimStart(s[1..]) else s
  }

  /** The trailing part of String.trim. */
  function TrimEnd(s: string): (r: string)
    ensures |r| <= |s| && r == s[..|r|]
    ensures forall i :: |r| <= i < |s| ==> IsTrimmable(s[i])
    ensures |r| > 0 ==> !IsTrimmable(r[|r| - 1])
    decreases |s|
  {
    if |s| > 0 && IsTrimmable(s[|s| - 1]) then TrimEnd(s[..|s| - 1]) else s
  }

  /** String.trim: strip trimmable characters from both ends. */
  function Trim(s: string): (t: string)
  {
    TrimEnd(TrimStart(s))
  }

  /** `s.trim().isEmpty()` holds exactly when every character of s is trimmable. */
  lemma TrimIsEmptyIff(s: string)
    ensures Trim(s) == "" <==> forall i :: 0 <= i < |s| ==> IsTrimmable(s[i])
  {
    var t := TrimStart(s);
    if Trim(s) == "" {
      assert |t| == 0;
    }
  }

  /** Index of the first c in s, or |s| when c does not occur. */
  function IndexOfChar(s: string, c: char): (i: nat)
    ensures i <= |s|
    ensures i < |s| ==> s[i] == c
    ensures forall k :: 0 <= k < i ==> s[k] != c
  {
    if |s| == 0 then 0 else if s[0] == c then 0 else 1 + IndexOfChar(s[1..], c)
  }

  /** Every piece of s between occurrences of c, empty pieces included. */
  function SplitAll(s: string, c: char): (ps: seq<string>)
    ensures |ps| > 0
    decreases |s|
  {
    var i := IndexOfChar(s, c);
    if i == |s| then [s] else [s[..i]] + SplitAll(s[i + 1..], c)
  }

  /** Drops the empty strings at the end of a list of pieces. */
  function DropTrailingEmpty(ps: seq<string>): (r: seq<string>)
    ensures |r| <= |ps| && r == ps[..|r|]
    ensures forall i :: |r| <= i < |ps| ==> ps[i] == ""
    ensures |r| > 0 ==> r[|r| - 1] != ""
  {
    if |ps| > 0 && ps[|ps| - 1] == "" then DropTrailingEmpty(ps[..|ps| - 1]) else ps
  }

  /**
   * String.split with a one-character pattern that is not a regular-expression
   * metacharacter, and no limit: the string itself when c does not occur,
   * otherwise the pieces between occurrences with trailing empty pieces removed.
   */
  function Split(s: string, c: char): (ps: seq<string>)
  {
    if IndexOfChar(s, c) == |s| then [s] else DropTrailingEmpty(SplitAll(s, c))
  }

  /** String.join with a one-character separator. */
  function Join(ps: seq<string>, c: char): (s: string)
  {
    if |ps| == 0 then "" else if |ps| == 1 then ps[0] else ps[0] + [c] + Join(ps[1..], c)
  }

  /** Splitting loses nothing: joining the pieces with c gives s back, and no piece holds c. */
  lemma {:induction false} SplitAllJoin(s: string, c: char)
    ensures Join(SplitAll(s, c), c) == s
    ensures forall k :: 0 <= k < |SplitAll(s, c)| ==> c !in SplitAll(s, c)[k]
    decreases |s|
  {
    var i := IndexOfChar(s, c);
    if i < |s| {
      SplitAllJoin(s[i + 1..], c);
      assert s == s[..i] + [c] + s[i + 1..];
      var ps := SplitAll(s, c);
      forall k | 0 <= k < |ps|
        ensures c !in ps[k]
      {
        if k > 0 {
          assert ps[k] == SplitAll(s[i + 1..], c)[k - 1];
        }
      }
    }
  }

  /** The first piece of a split, when there is one, is the text before the first c. */
  lemma SplitHead(s: string, c: char)
    ensures |Split(s, c)| > 0 ==> Split(s, c)[0] == s[..IndexOfChar(s, c)]
  {
  }

  /** Every piece of SplitAll is empty exactly when s consists of c alone. */
  lemma {:induction false} SplitAllEmptyPieces(s: string, c: char)
    ensures (forall k :: 0 <= k < |SplitAll(s, c)| ==> SplitAll(s, c)[k] == "")
            <==> (forall i :: 0 <= i < |s| ==> s[i] == c)
    decreases |s|
  {
    var i := IndexOfChar(s, c);
    var ps := SplitAll(s, c);
    if i < |s| {
      var rest := SplitAll(s[i + 1..], c);
      SplitAllEmptyPieces(s[i + 1..], c);
      assert ps == [s[..i]] + rest;
      if forall k :: 0 <= k < |ps| ==> ps[k] == "" {
        assert ps[0] == s[..i] == "";
        forall j | 0 <= j < |s|
          ensures s[j] == c
        {
          if j > 0 {
            assert forall k :: 0 <= k < |rest| ==> rest[k] == ps[k + 1];
            assert s[j] == s[i + 1..][j - 1];
          }
        }
      }
      if forall j :: 0 <= j < |s| ==> s[j] == c {
        assert i == 0;
        assert forall j :: 0 <= j < |s[1..]| ==> s[1..][j] == s[j + 1];
        forall k | 0 <= k < |ps|
          ensures ps[k] == ""
        {
          if k > 0 {
            assert ps[k] == rest[k - 1];
          }
        }
      }
    } else {
      assert ps == [s];
      if |s| > 0 {
        assert s[0] != c;
        assert SplitAll(s, c)[0] != "";
      }
    }
  }

  /**
   * A split yields no pieces at all exactly when s is non-empty and made of c
   * alone; every other string, the empty one included, has a first piece.
   */
  lemma SplitEmptyIff(s: string, c: char)
    ensures |Split(s, c)| == 0 <==> |s| > 0 && forall i :: 0 <= i < |s| ==> s[i] == c
  {
    SplitAllEmptyPieces(s, c);
    var ps := SplitAll(s, c);
    if IndexOfChar(s, c) < |s| {
      var r := DropTrailingEmpty(ps);
      if |r| > 0 {
        assert r[|r| - 1] == ps[|r| - 1];
      }
    } else if |s| > 0 {
      assert s[0] != c;
    }
  }
}
