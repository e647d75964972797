/** The two C string routines the driver relies on: `strcmp`, which orders
    handles, and `strtok_r`, which splits the virtual path. A C string is
    modelled by the characters before its terminating NUL, one `char` per byte. */
module CString {
  import opened Wrappers

  /** What a C string can hold before its terminator: bytes (`char` values below
      256, compared as `unsigned char` by `strcmp`), none of them NUL. Its length
      is then `strlen` in bytes. */
  predicate IsCString(s: string)
  {
    forall i :: 0 <= i < |s| ==> 0 < s[i] as int < 256
  }

  /** Joining two C strings with a non-NUL byte gives a C string. */
  lemma CStringJoin(a: string, d: char, b: string)
    requires IsCString(a) && IsCString(b) && 0 < d as int < 256
    ensures IsCString(a + [d] + b)
  {
    var s := a + [d] + b;
    forall i | 0 <= i < |s| ensures 0 < s[i] as int < 256 {
      if i > |a| {
        assert s[i] == b[i - |a| - 1];
      }
    }
  }

  /** Strict lexicographic order, stated without reference to `strcmp`: `a` is a
      proper prefix of `b`, or at the first position where they differ the
      character of `a` is smaller. */
  ghost predicate LexLess(a: string, b: string)
  {
    exists k :: 0 <= k <= |a| && k <= |b| && a[..k] == b[..k]
      && ((k == |a| && k < |b|) || (k < |a| && k < |b| && a[k] < b[k]))
  }

  /** `strcmp`: negative, zero or positive as `a` sorts before, equal to or after
      `b`. Only the sign is specified by C, so the model returns -1, 0 or 1. */
  function Strcmp(a: string, b: string): (r: int)
    ensures -1 <= r <= 1
    ensures r == 0 <==> a == b
  {
    if |a| == 0 && |b| == 0 then 0
    else if |a| == 0 then -1
    else if |b| == 0 then 1
    else if a[0] < b[0] then -1
    else if a[0] > b[0] then 1
    else
      assert a == [a[0]] + a[1..] && b == [b[0]] + b[1..];
      Strcmp(a[1..], b[1..])
  }

  /** `strcmp` is the lexicographic order. */
  lemma {:induction false} StrcmpIsLexicographic(a: string, b: string)
    ensures Strcmp(a, b) < 0 <==> LexLess(a, b)
  {
    if |a| == 0 && |b| == 0 {
    } else if |a| == 0 {
      assert a[..0] == b[..0];
    } else if |b| == 0 {
    } else if a[0] < b[0] {
      assert a[..0] == b[..0];
    } else if a[0] > b[0] {
      if LexLess(a, b) {
        var k :| 0 <= k <= |a| && k <= |b| && a[..k] == b[..k]
          && ((k == |a| && k < |b|) || (k < |a| && k < |b| && a[k] < b[k]));
        if k > 0 {
          assert a[0] == a[..k][0] == b[..k][0] == b[0];
        }
      }
    } else {
      StrcmpIsLexicographic(a[1..], b[1..]);
      if Strcmp(a, b) < 0 {
        var k :| 0 <= k <= |a[1..]| && k <= |b[1..]| && a[1..][..k] == b[1..][..k]
          && ((k == |a[1..]| && k < |b[1..]|)
              || (k < |a[1..]| && k < |b[1..]| && a[1..][k] < b[1..][k]));
        assert a[..k + 1] == [a[0]] + a[1..][..k];
        assert b[..k + 1] == [b[0]] + b[1..][..k];
      }
      if LexLess(a, b) {
        var k :| 0 <= k <= |a| && k <= |b| && a[..k] == b[..k]
          && ((k == |a| && k < |b|) || (k < |a| && k < |b| && a[k] < b[k]));
        assert k > 0;
        assert a[1..][..k - 1] == a[..k][1..];
        assert b[1..][..k - 1] == b[..k][1..];
        assert LexLess(a[1..], b[1..]);
      }
    }
  }

  /** Swapping the operands of `strcmp` flips the sign. */
  lemma {:induction false} StrcmpAntisymmetric(a: string, b: string)
    ensures Strcmp(a, b) == -Strcmp(b, a)
  {
    if |a| > 0 && |b| > 0 && a[0] == b[0] {
      StrcmpAntisymmetric(a[1..], b[1..]);
    }
  }

  /** `strcmp` orders strings transitively. */
  lemma {:induction false} StrcmpTransitive(a: string, b: string, c: string)
    requires Strcmp(a, b) < 0 && Strcmp(b, c) < 0
    ensures Strcmp(a, c) < 0
  {
    if |a| > 0 && |b| > 0 && |c| > 0 && a[0] == b[0] && b[0] == c[0] {
      StrcmpTransitive(a[1..], b[1..], c[1..]);
    }
  }

  /** `n` copies of `d`. */
  function Repeat(d: char, n: nat): (r: string)
    ensures |r| == n
    ensures forall i :: 0 <= i < n ==> r[i] == d
  {
    if n == 0 then [] else [d] + Repeat(d, n - 1)
  }

  /** Length of the run of delimiters `d` at the start of `s` (`strspn`). */
  function Span(s: string, d: char): (n: nat)
    ensures n <= |s|
    ensures forall i :: 0 <= i < n ==> s[i] == d
    ensures n < |s| ==> s[n] != d
  {
    if |s| == 0 || s[0] != d then 0 else 1 + Span(s[1..], d)
  }

  /** Position of the first delimiter `d` in `s`, or `|s|` if it has none (`strpbrk`). */
  function FindDelim(s: string, d: char): (n: nat)
    ensures n <= |s|
    ensures forall i :: 0 <= i < n ==> s[i] != d
    ensures n < |s| ==> s[n] == d
  {
    if |s| == 0 || s[0] == d then 0 else 1 + FindDelim(s[1..], d)
  }

  /** What a first call `tok = strtok_r(s, d, &saveptr)` yields: the token (`NULL`
      when `s` holds nothing but delimiters) and the string `saveptr` is left at. */
  datatype Tokenized = Tokenized(token: Option<string>, rest: string)

  /** `strtok_r` with a single delimiter character: skip the leading delimiters,
      take the token up to the next delimiter, and leave `saveptr` just past that
      one delimiter (or at the end of the string when there is none). */
  function StrtokR(s: string, d: char): (r: Tokenized)
    ensures r.token.Some? ==> r.token.value != [] && d !in r.token.value
  {
    var n := Span(s, d);
    if n == |s| then Tokenized(None, [])
    else
      var t := s[n..];
      var e := FindDelim(t, d);
      assert t[0] != d;
      if e == |t| then Tokenized(Some(t), [])
      else Tokenized(Some(t[..e]), t[e + 1..])
  }

  /** `strtok_r` finds no token exactly when the string is nothing but delimiters. */
  lemma StrtokRNoToken(s: string, d: char)
    ensures StrtokR(s, d).token.None? <==> forall i :: 0 <= i < |s| ==> s[i] == d
  {
    var n := Span(s, d);
    if n < |s| {
      assert s[n] != d;
    }
  }

  /** The token and the remainder rebuild the input: the skipped delimiters, the
      token, and (if the token was ended by a delimiter) that delimiter followed by
      the remainder verbatim. */
  lemma {:induction false} StrtokRReconstructs(s: string, d: char)
    requires StrtokR(s, d).token.Some?
    ensures var r := StrtokR(s, d);
      s == Repeat(d, Span(s, d)) + r.token.value + [d] + r.rest
      || (r.rest == [] && s == Repeat(d, Span(s, d)) + r.token.value)
  {
    var n := Span(s, d);
    if FindDelim(s[n..], d) < |s[n..]| {
      ReconstructEndedToken(s, d);
    } else {
      ReconstructLastToken(s, d);
    }
  }

  lemma ReconstructEndedToken(s: string, d: char)
    requires Span(s, d) < |s| && FindDelim(s[Span(s, d)..], d) < |s[Span(s, d)..]|
    ensures StrtokR(s, d).token.Some?
    ensures s == Repeat(d, Span(s, d)) + StrtokR(s, d).token.value + [d] + StrtokR(s, d).rest
  {
    var n := Span(s, d);
    var t := s[n..];
    var e := FindDelim(t, d);
    StrtokREndedValue(s, d);
    LeadingRun(s, d, n);
    SplitAround(t, e);
    Regroup(s, Repeat(d, n), t, t[..e], [d], t[e + 1..]);
  }

  /** The value `strtok_r` returns when a delimiter ends the token. */
  lemma StrtokREndedValue(s: string, d: char)
    requires Span(s, d) < |s| && FindDelim(s[Span(s, d)..], d) < |s[Span(s, d)..]|
    ensures var t := s[Span(s, d)..]; var e := FindDelim(t, d);
      StrtokR(s, d) == Tokenized(Some(t[..e]), t[e + 1..]) && t[e] == d
  {
  }

  lemma Regroup(s: string, lead: string, t: string, tok: string, mid: string, rest: string)
    requires s == lead + t && t == tok + mid + rest
    ensures s == lead + tok + mid + rest
  {
  }

  lemma ReconstructLastToken(s: string, d: char)
    requires Span(s, d) < |s| && FindDelim(s[Span(s, d)..], d) == |s[Span(s, d)..]|
    ensures StrtokR(s, d).token.Some? && StrtokR(s, d).rest == []
    ensures s == Repeat(d, Span(s, d)) + StrtokR(s, d).token.value
  {
    var n := Span(s, d);
    LeadingRun(s, d, n);
    assert StrtokR(s, d) == Tokenized(Some(s[n..]), []);
  }

  lemma LeadingRun(s: string, d: char, n: nat)
    requires n <= |s| && forall i :: 0 <= i < n ==> s[i] == d
    ensures s == Repeat(d, n) + s[n..]
  {
    assert s[..n] == Repeat(d, n);
    assert s == s[..n] + s[n..];
  }

  lemma SplitAround(t: string, e: nat)
    requires e < |t|
    ensures t == t[..e] + [t[e]] + t[e + 1..]
  {
  }

  /** Leading delimiters do not change what `strtok_r` returns. */
  lemma {:induction false} StrtokRSkipsLeading(n: nat, s: string, d: char)
    ensures StrtokR(Repeat(d, n) + s, d) == StrtokR(s, d)
  {
    if n > 0 {
      var s' := Repeat(d, n) + s;
      assert s'[0] == d;
      assert s'[1..] == Repeat(d, n - 1) + s;
      StrtokRSkipsLeading(n - 1, s, d);
      assert StrtokR(s'[1..], d) == StrtokR(s, d);
      StrtokRDropsDelim(s', d);
      assert StrtokR(s', d) == StrtokR(s'[1..], d);
    } else {
      assert Repeat(d, n) + s == s;
    }
  }

  lemma StrtokRDropsDelim(s: string, d: char)
    requires s != [] && s[0] == d
    ensures StrtokR(s, d) == StrtokR(s[1..], d)
  {
    var n := Span(s, d);
    var n' := Span(s[1..], d);
    assert n == 1 + n';
    assert s[n..] == s[1..][n'..];
  }

  /** For `b + d + k` with a non-empty, delimiter-free `b`, the token is `b` and the
      remainder is exactly `k`, delimiters inside `k` included. */
  lemma StrtokRSplitsAtFirstDelim(b: string, k: string, d: char)
    requires b != [] && d !in b
    ensures StrtokR(b + [d] + k, d) == Tokenized(Some(b), k)
  {
    var s := b + [d] + k;
    assert s[0] == b[0];
    assert Span(s, d) == 0;
    FindDelimPrefix(b, [d] + k, d);
    assert s == b + ([d] + k);
  }

  /** A delimiter-free, non-empty string is one token with nothing left over. */
  lemma StrtokRWholeToken(b: string, d: char)
    requires b != [] && d !in b
    ensures StrtokR(b, d) == Tokenized(Some(b), [])
  {
    assert b[0] in b;
    FindDelimPrefix(b, [], d);
    assert b + [] == b;
  }

  lemma {:induction false} FindDelimPrefix(b: string, t: string, d: char)
    requires d !in b
    requires t != [] ==> t[0] == d
    ensures FindDelim(b + t, d) == |b|
  {
    if b != [] {
      assert (b + t)[0] == b[0];
      assert (b + t)[1..] == b[1..] + t;
      FindDelimPrefix(b[1..], t, d);
    }
  }
}
