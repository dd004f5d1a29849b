/**
 * The JavaScript string primitives the contact form relies on: the `\s`
 * character class, `String.prototype.trim`, `replace(/\s/g, '')`,
 * `endsWith` and the `\d` class. A string is a sequence of characters;
 * every character `\s` matches lies in the Basic Multilingual Plane.
 */
module Text {

  /**
   * ECMAScript WhiteSpace and LineTerminator code points. This one set is
   * both what `\s` matches in a regular expression and what `trim` removes.
   */
  predicate IsWs(c: char) {
    || c == '\t' || c == '\n' || c == '\U{000B}' || c == '\U{000C}' || c == '\r'
    || c == ' ' || c == '\U{00A0}' || c == '\U{1680}'
    || ('\U{2000}' <= c <= '\U{200A}')
    || c == '\U{2028}' || c == '\U{2029}' || c == '\U{202F}' || c == '\U{205F}'
    || c == '\U{3000}' || c == '\U{FEFF}'
  }

  /** `\d`: an ASCII decimal digit. */
  predicate IsDigit(c: char) {
    '0' <= c <= '9'
  }

  predicate NoWs(s: string) {
    forall i | 0 <= i < |s| :: !IsWs(s[i])
  }

  predicate AllWs(s: string) {
    forall i | 0 <= i < |s| :: IsWs(s[i])
  }

  /** Neither end of `s` is whitespace: what `trim` leaves behind. */
  predicate Trimmed(s: string) {
    s == [] || (!IsWs(s[0]) && !IsWs(s[|s| - 1]))
  }

  /** Drops leading whitespace. */
  function TrimStart(s: string): string {
    if s != [] && IsWs(s[0]) then TrimStart(s[1..]) else s
  }

  /** Drops trailing whitespace. */
  function TrimEnd(s: string): string {
    if s != [] && IsWs(s[|s| - 1]) then TrimEnd(s[..|s| - 1]) else s
  }

  /** `String.prototype.trim`. */
  function Trim(s: string): string {
    TrimEnd(TrimStart(s))
  }

  /** TrimStart keeps a suffix of `s`, drops only whitespace, and stops at the first other code point. */
  lemma {:induction false} TrimStartSpec(s: string)
    ensures var r := TrimStart(s);
            && |r| <= |s| && r == s[|s| - |r|..]
            && AllWs(s[..|s| - |r|])
            && (r == [] || !IsWs(r[0]))
  {
    if s != [] && IsWs(s[0]) {
      TrimStartSpec(s[1..]);
      var r := TrimStart(s);
      assert s[..|s| - |r|] == [s[0]] + s[1..][..|s| - 1 - |r|];
    } else {
      assert s[..0] == [];
    }
  }

  /** TrimEnd keeps a prefix of `s`, drops only whitespace, and stops at the last other code point. */
  lemma {:induction false} TrimEndSpec(s: string)
    ensures var r := TrimEnd(s);
            && |r| <= |s| && r == s[..|r|]
            && AllWs(s[|r|..])
            && (r == [] || !IsWs(r[|r| - 1]))
  {
    if s != [] && IsWs(s[|s| - 1]) {
      var p := s[..|s| - 1];
      TrimEndSpec(p);
      var r := TrimEnd(s);
      assert s[|r|..] == p[|r|..] + [s[|s| - 1]];
      assert r == p[..|r|] == s[..|r|];
    } else {
      assert s[|s|..] == [];
    }
  }

  /** `trim` leaves no whitespace at either end, and leaves nothing only from an all-whitespace string. */
  lemma TrimSpec(s: string)
    ensures Trimmed(Trim(s))
    ensures Trim(s) == [] <==> AllWs(s)
  {
    var t := TrimStart(s);
    TrimStartSpec(s);
    TrimEndSpec(t);
    var r := TrimEnd(t);
    if t == [] {
      assert s[..|s|] == s;
    }
    if r != [] {
      assert r[0] == t[0];
    }
  }

  /** `t` is `s` with some whitespace, and only whitespace, cut from its two ends. */
  ghost predicate PaddedBy(s: string, t: string) {
    exists p, q | AllWs(p) && AllWs(q) :: s == p + t + q
  }

  /** `trim` keeps the text of `s` between a whitespace prefix and a whitespace suffix. */
  lemma TrimPadded(s: string)
    ensures PaddedBy(s, Trim(s))
  {
    TrimInfix(s);
    var k := |s| - |TrimStart(s)|;
    var p, q := s[..k], s[k + |Trim(s)|..];
    assert s == p + Trim(s) + q;
  }

  /** `trim` removes whitespace from the two ends of `s` and nothing else. */
  lemma TrimInfix(s: string)
    ensures |TrimStart(s)| <= |s|
    ensures |s| - |TrimStart(s)| + |Trim(s)| <= |s|
    ensures s[|s| - |TrimStart(s)|..|s| - |TrimStart(s)| + |Trim(s)|] == Trim(s)
    ensures AllWs(s[..|s| - |TrimStart(s)|])
    ensures AllWs(s[|s| - |TrimStart(s)| + |Trim(s)|..])
  {
    var t := TrimStart(s);
    TrimStartSpec(s);
    TrimEndSpec(t);
    var k := |s| - |t|;
    var r := TrimEnd(t);
    assert t == s[k..];
    assert s[k..k + |r|] == t[..|r|];
    assert s[k + |r|..] == t[|r|..];
  }

  /** `replace(/\s/g, '')`. */
  function StripWs(s: string): string {
    if s == [] then []
    else (if IsWs(s[0]) then [] else [s[0]]) + StripWs(s[1..])
  }

  /** Stripping leaves no whitespace, never lengthens, and changes nothing in a whitespace-free string. */
  lemma {:induction false} StripWsSpec(s: string)
    ensures NoWs(StripWs(s))
    ensures |StripWs(s)| <= |s|
    ensures NoWs(s) ==> StripWs(s) == s
    ensures AllWs(s) ==> StripWs(s) == []
  {
    if s != [] {
      StripWsSpec(s[1..]);
      var head := if IsWs(s[0]) then [] else [s[0]];
      var r := StripWs(s);
      assert r == head + StripWs(s[1..]);
      forall i | 0 <= i < |r| ensures !IsWs(r[i]) {
        if i >= |head| {
          assert r[i] == StripWs(s[1..])[i - |head|];
        }
      }
      if NoWs(s) {
        assert NoWs(s[1..]) by {
          forall i | 0 <= i < |s| - 1 ensures !IsWs(s[1..][i]) { assert s[1..][i] == s[i + 1]; }
        }
        assert s == [s[0]] + s[1..];
      }
      if AllWs(s) {
        assert AllWs(s[1..]) by {
          forall i | 0 <= i < |s| - 1 ensures IsWs(s[1..][i]) { assert s[1..][i] == s[i + 1]; }
        }
      }
    }
  }

  lemma {:induction false} StripWsAppend(a: string, b: string)
    ensures StripWs(a + b) == StripWs(a) + StripWs(b)
  {
    if a != [] {
      assert (a + b)[1..] == a[1..] + b;
      StripWsAppend(a[1..], b);
    } else {
      assert a + b == b;
    }
  }

  /** Stripping the trimmed string gives what stripping the raw string gives. */
  lemma StripWsOfTrim(s: string)
    ensures StripWs(Trim(s)) == StripWs(s)
  {
    TrimInfix(s);
    var k := |s| - |TrimStart(s)|;
    var r := Trim(s);
    var a, b := s[..k], s[k + |r|..];
    assert AllWs(a) && AllWs(b);
    assert s == a + r + b;
    StripWsAppend(a + r, b);
    StripWsAppend(a, r);
    StripWsSpec(a);
    StripWsSpec(b);
    assert [] + StripWs(r) + [] == StripWs(r);
  }

  /** `s.endsWith(suffix)`; every string ends with the empty string. */
  predicate EndsWith(s: string, suffix: string) {
    |suffix| <= |s| && s[|s| - |suffix|..] == suffix
  }
}
