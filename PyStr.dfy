/**
 * The few Python `str` operations the bot relies on, restricted to ASCII:
 * `str.lower()`, the `in` operator, `str.replace(p, '')` and `str.strip()`.
 */
module PyStr {

  /** Upper-case ASCII letters map to lower case; every other character is kept. */
  function LowerChar(c: char): (d: char)
    ensures 'A' <= c <= 'Z' ==> d as int == c as int + ('a' as int - 'A' as int)
    ensures !('A' <= c <= 'Z') ==> d == c
  {
    if 'A' <= c <= 'Z' then (c as int - 'A' as int + 'a' as int) as char else c
  }

  /** `s.lower()`: the same length, each character lowered on its own. */
  function Lower(s: string): (r: string)
    ensures |r| == |s|
    ensures forall i :: 0 <= i < |s| ==> r[i] == LowerChar(s[i])
  {
    if s == [] then [] else [LowerChar(s[0])] + Lower(s[1..])
  }

  /** Lowering twice changes nothing more than lowering once. */
  lemma LowerIdempotent(s: string)
    ensures Lower(Lower(s)) == Lower(s)
  {
    var once := Lower(s);
    var twice := Lower(once);
    forall i | 0 <= i < |s| ensures twice[i] == once[i] {
      assert once[i] == LowerChar(s[i]);
    }
  }

  /** `sub in s`: the empty string occurs everywhere; otherwise `sub` starts somewhere in `s`. */
  predicate Contains(s: string, sub: string)
    ensures sub == [] ==> Contains(s, sub)
    ensures Contains(s, sub) ==> |sub| <= |s|
    decreases |s|
  {
    sub <= s || (s != [] && Contains(s[1..], sub))
  }

  /** `sub in s` holds exactly when some suffix of `s` starts with `sub`. */
  lemma {:induction false} ContainsIff(s: string, sub: string)
    ensures Contains(s, sub) <==> exists i :: 0 <= i <= |s| && sub <= s[i..]
    decreases |s|
  {
    if sub <= s {
      assert s[0..] == s;
    } else if s == [] {
      forall i | 0 <= i <= |s| ensures !(sub <= s[i..]) {
        assert s[i..] == s;
      }
    } else {
      ContainsIff(s[1..], sub);
      if Contains(s[1..], sub) {
        var j :| 0 <= j <= |s[1..]| && sub <= s[1..][j..];
        assert s[1..][j..] == s[j + 1..];
      } else {
        forall i | 0 <= i <= |s| ensures !(sub <= s[i..]) {
          if i > 0 {
            assert s[i..] == s[1..][i - 1..];
          } else {
            assert s[i..] == s;
          }
        }
      }
    }
  }

  /** One occurrence of `sub` placed anywhere in a string is found by `in`. */
  lemma {:induction false} ContainsInfix(a: string, sub: string, b: string)
    ensures Contains(a + sub + b, sub)
  {
    var s := a + sub + b;
    assert s[|a|..] == sub + b;
    ContainsIff(s, sub);
  }

  /**
   * `s.replace(pat, '')`: scans left to right and deletes each occurrence of
   * `pat` that does not overlap one already deleted.
   */
  function RemoveAll(s: string, pat: string): (r: string)
    requires pat != []
    ensures |r| <= |s|
    decreases |s|
  {
    if s == [] then []
    else if pat <= s then RemoveAll(s[|pat|..], pat)
    else [s[0]] + RemoveAll(s[1..], pat)
  }

  /** A string in which `pat` does not occur is returned unchanged. */
  lemma {:induction false} RemoveAllAbsent(s: string, pat: string)
    requires pat != []
    requires !Contains(s, pat)
    ensures RemoveAll(s, pat) == s
    decreases |s|
  {
    if s != [] {
      RemoveAllAbsent(s[1..], pat);
    }
  }

  /** When `pat` occurs, at least one whole copy of it is deleted. */
  lemma {:induction false} RemoveAllShrinks(s: string, pat: string)
    requires pat != []
    requires Contains(s, pat)
    ensures |RemoveAll(s, pat)| <= |s| - |pat|
    decreases |s|
  {
    if pat <= s {
    } else {
      RemoveAllShrinks(s[1..], pat);
    }
  }

  /** Deleting `pat` from `a + pat + b` drops the copy in the middle and keeps `a` intact when `a` holds no match. */
  lemma {:induction false} RemoveAllAround(a: string, pat: string, b: string)
    requires pat != []
    requires forall i :: 0 <= i < |a| ==> !(pat <= a[i..] + pat + b)
    ensures RemoveAll(a + pat + b, pat) == a + RemoveAll(b, pat)
    decreases |a|
  {
    var s := a + pat + b;
    if a == [] {
      assert s == pat + b;
      assert s[|pat|..] == b;
    } else {
      assert a[0..] == a;
      assert !(pat <= s);
      assert s[1..] == a[1..] + pat + b;
      forall i | 0 <= i < |a[1..]| ensures !(pat <= a[1..][i..] + pat + b) {
        assert a[1..][i..] == a[i + 1..];
      }
      RemoveAllAround(a[1..], pat, b);
    }
  }

  /** ASCII whitespace as Python's `str.isspace` judges it: tab to carriage return, the four separators 28 to 31, and space. */
  predicate IsSpace(c: char)
    ensures c == ' ' || c == '\t' || c == '\n' || c == '\r' ==> IsSpace(c)
    ensures IsSpace(c) ==> c as int <= ' ' as int
  {
    c == ' ' || 9 <= c as int <= 13 || 28 <= c as int <= 31
  }

  /** `s.lstrip()`: the suffix left after the leading whitespace is dropped. */
  function TrimLeft(s: string): (r: string)
    ensures |r| <= |s| && r == s[|s| - |r|..]
    ensures forall i :: 0 <= i < |s| - |r| ==> IsSpace(s[i])
    ensures r == [] || !IsSpace(r[0])
    decreases |s|
  {
    if s != [] && IsSpace(s[0]) then TrimLeft(s[1..]) else s
  }

  /** `s.rstrip()`: the prefix left after the trailing whitespace is dropped. */
  function TrimRight(s: string): (r: string)
    ensures |r| <= |s| && r == s[..|r|]
    ensures forall i :: |r| <= i < |s| ==> IsSpace(s[i])
    ensures r == [] || !IsSpace(r[|r| - 1])
    decreases |s|
  {
    if s != [] && IsSpace(s[|s| - 1]) then TrimRight(s[..|s| - 1]) else s
  }

  /** `s.strip()`: drops whitespace at both ends. */
  function Strip(s: string): (r: string)
    ensures |r| <= |s|
    ensures r == [] || (!IsSpace(r[0]) && !IsSpace(r[|r| - 1]))
  {
    var left := TrimLeft(s);
    var r := TrimRight(left);
    assert r != [] ==> r[0] == left[0];
    r
  }

  /** `s` is its stripped string surrounded by whitespace only: `s == lead + Strip(s) + trail`. */
  lemma StripSpec(s: string)
    ensures var r := Strip(s); var lead := |s| - |TrimLeft(s)|;
      lead + |r| <= |s| && s[lead..lead + |r|] == r
      && (forall i :: 0 <= i < lead ==> IsSpace(s[i]))
      && (forall i :: lead + |r| <= i < |s| ==> IsSpace(s[i]))
  {
    var left := TrimLeft(s);
    var r := TrimRight(left);
    assert Strip(s) == r;
    var lead := |s| - |left|;
    assert lead + |r| <= |s|;
    assert s[lead..lead + |r|] == r by {
      assert left == s[lead..];
      assert r == left[..|r|];
    }
    forall i | lead + |r| <= i < |s| ensures IsSpace(s[i]) {
      assert s[i] == left[i - lead];
    }
  }

  /** Stripping a second time changes nothing. */
  lemma StripIdempotent(s: string)
    ensures Strip(Strip(s)) == Strip(s)
  {
    StripSpec(s);
    var r := Strip(s);
    assert TrimLeft(r) == r;
    assert TrimRight(r) == r;
  }
}
