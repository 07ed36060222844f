/** LIKE patterns (section 8.5 of ISO/IEC 9075:1992, with ESCAPE '!') and the escaping
    that storage/sqlstore/sqlstore.go applies to search text. */
module SqlLike {
  import opened Storage

  const ESCAPE := '!'

  predicate Special(c: char) {
    c == '%' || c == '_' || c == ESCAPE
  }

  /** Whether text t matches pattern p. */
  predicate Like(p: string, t: string)
    decreases |p| + |t|
  {
    if p == [] then t == []
    else if p[0] == '%' then Like(p[1..], t) || (t != [] && Like(p, t[1..]))
    else if p[0] == '_' then t != [] && Like(p[1..], t[1..])
    else if p[0] == ESCAPE then |p| >= 2 && t != [] && t[0] == p[1] && Like(p[2..], t[1..])
    else t != [] && t[0] == p[0] && Like(p[1..], t[1..])
  }

  function EscapeChar(c: char): string {
    if Special(c) then [ESCAPE, c] else [c]
  }

  function Escape(s: string): string {
    if s == [] then [] else EscapeChar(s[0]) + Escape(s[1..])
  }

  lemma {:induction false} EscapeAppend(s: string, c: char)
    ensures Escape(s + [c]) == Escape(s) + EscapeChar(c)
  {
    if s == [] {
      assert [] + [c] == [c] && [c][1..] == [];
      assert Escape([c]) == EscapeChar(c) + Escape([]);
    } else {
      assert (s + [c])[1..] == s[1..] + [c];
      EscapeAppend(s[1..], c);
    }
  }

  lemma {:induction false} EscapePlain(s: string)
    requires forall i :: 0 <= i < |s| ==> !Special(s[i])
    ensures Escape(s) == s
  {
    if s != [] {
      EscapePlain(s[1..]);
      assert s == [s[0]] + s[1..];
    }
  }

  method EscapeLike(s: string) returns (b: string)
    ensures b == Escape(s)
  {
    if forall i :: 0 <= i < |s| ==> !Special(s[i]) {
      EscapePlain(s);
      return s;
    }
    b := "";
    for i := 0 to |s|
      invariant b == Escape(s[..i])
    {
      EscapeAppend(s[..i], s[i]);
      assert s[..i + 1] == s[..i] + [s[i]];
      if Special(s[i]) {
        b := b + [ESCAPE];
      }
      b := b + [s[i]];
    }
    assert s[..|s|] == s;
  }

  /** Escaped text consumes exactly itself. */
  lemma {:induction false} EscapedThen(s: string, p: string, t: string)
    ensures Like(Escape(s) + p, t) <==> HasPrefix(t, s) && Like(p, t[|s|..])
  {
    if s == [] {
      assert Escape(s) + p == p;
    } else {
      var q := Escape(s[1..]) + p;
      assert Escape(s) + p == EscapeChar(s[0]) + q;
      assert (Escape(s) + p)[|EscapeChar(s[0])|..] == q;
      if t != [] && t[0] == s[0] {
        EscapedThen(s[1..], p, t[1..]);
        assert |t| >= |s| ==> t[1..][|s| - 1..] == t[|s|..];
        assert s == [s[0]] + s[1..] && t == [t[0]] + t[1..];
        assert HasPrefix(t[1..], s[1..]) <==> HasPrefix(t, s);
      }
    }
  }

  lemma {:induction false} PercentMatchesAll(t: string)
    ensures Like("%", t)
  {
    if t != [] { PercentMatchesAll(t[1..]); }
  }

  /** "%" followed by p matches when p matches some tail. */
  lemma {:induction false} PercentThen(p: string, t: string)
    ensures Like("%" + p, t) <==> exists i :: 0 <= i <= |t| && Like(p, t[i..])
  {
    assert ("%" + p)[1..] == p;
    if t == [] {
      assert t[0..] == t;
    } else {
      PercentThen(p, t[1..]);
      if Like(p, t) { assert t[0..] == t; }
      if Like("%" + p, t[1..]) {
        var i :| 0 <= i <= |t[1..]| && Like(p, t[1..][i..]);
        assert t[1..][i..] == t[i + 1..];
      }
      if j :| 0 <= j <= |t| && Like(p, t[j..]) {
        if j == 0 { assert t[0..] == t; } else { assert t[1..][j - 1..] == t[j..]; }
      }
    }
  }

  /** The three patterns mean substring, prefix and suffix; no character of s is a wildcard. */
  lemma ContainsPattern(s: string, t: string)
    ensures Like("%" + (Escape(s) + "%"), t) <==> HasSubstring(t, s)
  {
    PercentThen(Escape(s) + "%", t);
    forall i | 0 <= i <= |t| ensures Like(Escape(s) + "%", t[i..]) <==> HasPrefix(t[i..], s) {
      StartsPattern(s, t[i..]);
    }
  }

  lemma StartsPattern(s: string, t: string)
    ensures Like(Escape(s) + "%", t) <==> HasPrefix(t, s)
  {
    EscapedThen(s, "%", t);
    if HasPrefix(t, s) { PercentMatchesAll(t[|s|..]); }
  }

  lemma EndsPattern(s: string, t: string)
    ensures Like("%" + Escape(s), t) <==> HasSuffix(t, s)
  {
    PercentThen(Escape(s), t);
    forall i | 0 <= i <= |t| ensures Like(Escape(s), t[i..]) <==> t[i..] == s {
      EscapedThen(s, [], t[i..]);
      assert Escape(s) + [] == Escape(s);
    }
    if HasSuffix(t, s) { assert t[|t| - |s|..] == s; }
  }
}
