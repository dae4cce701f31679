/** The glob patterns of the Redis KEYS command, and the string replacement
    (`str_ireplace` of one character) the repository uses to build them. */
module Glob {

  /** Redis glob matching: `*` matches any run of characters, `?` any one character,
      `\x` the character `x` itself (a backslash at the very end matches a backslash),
      and every other character itself. */
  predicate Matches(p: string, s: string)
    ensures Matches(p, s) && '*' !in p ==> |s| <= |p|
    ensures Matches(p, s) && '*' !in p && '\\' !in p ==> |s| == |p|
    decreases |p| + |s|
  {
    if p == [] then s == []
    else if p[0] == '*' then Matches(p[1..], s) || (s != [] && Matches(p, s[1..]))
    else if p[0] == '?' then s != [] && Matches(p[1..], s[1..])
    else if p[0] == '\\' && |p| >= 2 then s != [] && s[0] == p[1] && Matches(p[2..], s[1..])
    else s != [] && s[0] == p[0] && Matches(p[1..], s[1..])
  }

  /** Every occurrence of `c` in `s` replaced by `r`, left to right. */
  function ReplaceChar(s: string, c: char, r: string): (t: string)
    ensures c !in r ==> c !in t
    ensures |r| == 1 ==> |t| == |s|
    ensures forall i | 0 <= i < |s| :: s[i] != c ==> s[i] in t
  {
    if s == [] then [] else (if s[0] == c then r else [s[0]]) + ReplaceChar(s[1..], c, r)
  }

  /** A string with no `*` and no `?`: as a class name is. */
  predicate NoWildcards(s: string)
  {
    forall i | 0 <= i < |s| :: s[i] != '*' && s[i] != '?'
  }

  /** `t` equals `m` except where `m` has a backslash, where `t` may hold anything. */
  predicate AgreesOutsideBackslashes(m: string, t: string)
  {
    |m| == |t| && forall i | 0 <= i < |m| :: m[i] == '\\' || m[i] == t[i]
  }

  lemma {:induction false} ReplaceCharAppend(a: string, b: string, c: char, r: string)
    ensures ReplaceChar(a + b, c, r) == ReplaceChar(a, c, r) + ReplaceChar(b, c, r)
  {
    if a != [] {
      assert (a + b)[1..] == a[1..] + b;
      ReplaceCharAppend(a[1..], b, c, r);
    } else {
      assert a + b == b;
    }
  }

  /** A lone `*` matches every string. */
  lemma {:induction false} StarMatchesAll(s: string)
    ensures Matches("*", s)
  {
    if s != [] {
      StarMatchesAll(s[1..]);
    }
  }

  /** A name with its backslashes doubled, followed by `rest`, matches exactly the strings
      that start with the name literally and continue with something `rest` matches. */
  lemma {:induction false} EscapedPrefix(m: string, rest: string, s: string)
    requires NoWildcards(m)
    ensures Matches(ReplaceChar(m, '\\', "\\\\") + rest, s)
        <==> |m| <= |s| && s[..|m|] == m && Matches(rest, s[|m|..])
  {
    if m == [] {
      assert ReplaceChar(m, '\\', "\\\\") + rest == rest;
      assert s[|m|..] == s;
    } else {
      var tail := ReplaceChar(m[1..], '\\', "\\\\") + rest;
      var p := ReplaceChar(m, '\\', "\\\\") + rest;
      if m[0] == '\\' {
        assert p == ['\\', '\\'] + tail;
        assert p[2..] == tail;
      } else {
        assert p == [m[0]] + tail;
        assert p[1..] == tail;
      }
      if s != [] {
        EscapedPrefix(m[1..], rest, s[1..]);
        if |m| <= |s| {
          assert s[1..][|m| - 1..] == s[|m|..];
          assert s[..|m|] == [s[0]] + s[1..][..|m| - 1];
          assert m == [m[0]] + m[1..];
        }
      }
    }
  }

  /** A name with its backslashes turned into `?`, followed by `rest`, matches the strings
      that start with the name up to the characters standing where it has backslashes. */
  lemma {:induction false} WildcardPrefix(m: string, rest: string, s: string)
    requires NoWildcards(m)
    ensures Matches(ReplaceChar(m, '\\', "?") + rest, s)
        <==> |m| <= |s| && AgreesOutsideBackslashes(m, s[..|m|]) && Matches(rest, s[|m|..])
  {
    if m == [] {
      assert ReplaceChar(m, '\\', "?") + rest == rest;
      assert s[|m|..] == s;
    } else {
      var tail := ReplaceChar(m[1..], '\\', "?") + rest;
      var p := ReplaceChar(m, '\\', "?") + rest;
      if m[0] == '\\' {
        assert p == ['?'] + tail;
      } else {
        assert p == [m[0]] + tail;
      }
      assert p[1..] == tail;
      if s != [] {
        WildcardPrefix(m[1..], rest, s[1..]);
        if |m| <= |s| {
          assert s[1..][|m| - 1..] == s[|m|..];
          var t := s[..|m|];
          assert s[1..][..|m| - 1] == t[1..];
          if AgreesOutsideBackslashes(m, t) {
            assert AgreesOutsideBackslashes(m[1..], t[1..]) by {
              forall i | 0 <= i < |m| - 1 ensures m[1..][i] == '\\' || m[1..][i] == t[1..][i] {
                assert m[1..][i] == m[i + 1] && t[1..][i] == t[i + 1];
              }
            }
          }
          if (m[0] == '\\' || m[0] == s[0]) && AgreesOutsideBackslashes(m[1..], t[1..]) {
            assert AgreesOutsideBackslashes(m, t) by {
              forall i | 0 <= i < |m| ensures m[i] == '\\' || m[i] == t[i] {
                if i > 0 {
                  assert m[1..][i - 1] == m[i] && t[1..][i - 1] == t[i];
                }
              }
            }
          }
        }
      }
    }
  }
}
