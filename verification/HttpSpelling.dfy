/** The spellings of a path that normalisation does not tell apart: percent-encodings, slashes either
    way, and a query or fragment (app-policy/checker/match.go:400-440; section 2.1 of RFC 3986). */
module HttpSpelling {
  import opened HttpPath

  // ---------- Percent-encoding ----------

  /** How one byte is written: as itself, or as two hexadecimal digits, each in either case. */
  datatype Spelling = Plainly | Encoded(high: bool, low: bool)

  function Digit(v: nat, upper: bool): char
    requires v < 16
  {
    if upper then "0123456789ABCDEF"[v] else "0123456789abcdef"[v]
  }

  predicate IsByte(c: char) { c as int < 256 }

  function SpellOne(c: char, how: Spelling): string
    requires IsByte(c)
  {
    match how
    case Plainly => [c]
    case Encoded(high, low) => ['%', Digit(c as int / 16, high), Digit(c as int % 16, low)]
  }

  /** A percent sign is always encoded. */
  predicate CanSpell(s: string, how: seq<Spelling>) {
    |how| == |s| && forall i :: 0 <= i < |s| ==> IsByte(s[i]) && (how[i].Plainly? ==> s[i] != '%')
  }

  function Spell(s: string, how: seq<Spelling>): string
    requires CanSpell(s, how)
  {
    if s == "" then "" else SpellOne(s[0], how[0]) + Spell(s[1..], how[1..])
  }

  lemma DigitExactly(v: nat, upper: bool)
    requires v < 16
    ensures IsHex(Digit(v, upper)) && HexValue(Digit(v, upper)) == v
  {
  }

  lemma DigitsAreThose(c: char) returns (upper: bool)
    requires IsHex(c)
    ensures Digit(HexValue(c), upper) == c
  {
    upper := c <= 'F';
  }

  lemma UnescapeOne(c: char, how: Spelling, p: string, s: string)
    requires IsByte(c) && (how.Plainly? ==> c != '%') && Unescape(p) == Some(s)
    ensures Unescape(SpellOne(c, how) + p) == Some([c] + s)
  {
    var all := SpellOne(c, how) + p;
    if how.Plainly? {
      assert all[1..] == p;
    } else {
      DigitExactly(c as int / 16, how.high);
      DigitExactly(c as int % 16, how.low);
      assert all[3..] == p && all[0] == '%';
    }
  }

  /** However a text is encoded, it is decoded to itself. */
  lemma {:induction false} DecodesToItself(s: string, how: seq<Spelling>)
    requires CanSpell(s, how)
    ensures Unescape(Spell(s, how)) == Some(s)
    decreases |s|
  {
    if s != "" {
      DecodesToItself(s[1..], how[1..]);
      UnescapeOne(s[0], how[0], Spell(s[1..], how[1..]), s[1..]);
      assert [s[0]] + s[1..] == s;
    }
  }

  /** The first byte of a decoded text, how it was written, and what is left to decode. */
  lemma DecodedFirst(p: string) returns (how: Spelling, rest: string)
    requires p != "" && Unescape(p).Some? && forall i :: 0 <= i < |p| ==> IsByte(p[i])
    ensures |rest| < |p| && Unescape(rest).Some? && forall i :: 0 <= i < |rest| ==> IsByte(rest[i])
    ensures var s := Unescape(p).value;
            && s != "" && s[1..] == Unescape(rest).value && IsByte(s[0]) && (how.Plainly? ==> s[0] != '%')
            && p == SpellOne(s[0], how) + rest
  {
    if p[0] != '%' {
      how, rest := Plainly, p[1..];
    } else {
      var high := DigitsAreThose(p[1]);
      var low := DigitsAreThose(p[2]);
      how, rest := Encoded(high, low), p[3..];
      ByteHalves(HexValue(p[1]), HexValue(p[2]));
      assert p == ['%', p[1], p[2]] + p[3..];
    }
  }

  lemma SpellFirst(s: string, first: Spelling, rest: seq<Spelling>)
    requires s != "" && CanSpell(s[1..], rest) && IsByte(s[0]) && (first.Plainly? ==> s[0] != '%')
    ensures CanSpell(s, [first] + rest) && Spell(s, [first] + rest) == SpellOne(s[0], first) + Spell(s[1..], rest)
  {
    assert ([first] + rest)[1..] == rest;
    assert forall i :: 1 <= i < |s| ==> s[i] == s[1..][i - 1];
  }

  /** And what decodes to a text is an encoding of it, so that all else is refused. */
  lemma {:induction false} DecodedIsSpelt(p: string) returns (how: seq<Spelling>)
    requires Unescape(p).Some? && forall i :: 0 <= i < |p| ==> IsByte(p[i])
    ensures CanSpell(Unescape(p).value, how) && Spell(Unescape(p).value, how) == p
    decreases |p|
  {
    how := [];
    if p != "" {
      var first, rest := DecodedFirst(p);
      var more := DecodedIsSpelt(rest);
      SpellFirst(Unescape(p).value, first, more);
      how := [first] + more;
    }
  }

  lemma ByteHalves(high: nat, low: nat)
    requires high < 16 && low < 16
    ensures (high * 16 + low) / 16 == high && (high * 16 + low) % 16 == low && high * 16 + low < 256
  {
  }

  /** Two encodings of one text, neither with a bare "?" or "#", normalise alike. */
  lemma EncodingsAlike(s: string, how: seq<Spelling>, other: seq<Spelling>)
    requires CanSpell(s, how) && CanSpell(s, other)
    requires var (p, q) := (Spell(s, how), Spell(s, other)); '?' !in p && '#' !in p && '?' !in q && '#' !in q
    ensures Normalise(Spell(s, how)) == Normalise(Spell(s, other))
  {
    DecodesToItself(s, how);
    DecodesToItself(s, other);
    assert Before(Spell(s, how), {'?', '#'}) == Spell(s, how);
    assert Before(Spell(s, other), {'?', '#'}) == Spell(s, other);
  }

  // ---------- Query and fragment ----------

  lemma {:induction false} BeforeMark(p: string, mark: char, rest: string, stop: set<char>)
    requires mark in stop && forall c :: c in p ==> c !in stop
    ensures Before(p + [mark] + rest, stop) == p
  {
    var all := p + [mark] + rest;
    if p != "" {
      BeforeMark(p[1..], mark, rest, stop);
      assert all[1..] == p[1..] + [mark] + rest;
    }
  }

  /** A query or a fragment makes no difference. */
  lemma QueryIgnored(p: string, mark: char, rest: string)
    requires mark in {'?', '#'} && '?' !in p && '#' !in p
    ensures Normalise(p + [mark] + rest) == Normalise(p)
  {
    BeforeMark(p, mark, rest, {'?', '#'});
    assert Before(p, {'?', '#'}) == p;
  }

  // ---------- Slashes ----------

  predicate IsSlash(c: char) { c == '/' || c == '\\' }

  /** The texts differ at most in which way their slashes lean. */
  predicate SlashesAlike(p: string, q: string) {
    |p| == |q| && forall i :: 0 <= i < |p| ==> p[i] == q[i] || (IsSlash(p[i]) && IsSlash(q[i]))
  }

  lemma {:induction false} BeforeAlike(p: string, q: string, stop: set<char>)
    requires SlashesAlike(p, q) && '/' !in stop && '\\' !in stop
    ensures SlashesAlike(Before(p, stop), Before(q, stop))
  {
    if p != "" { BeforeAlike(p[1..], q[1..], stop); }
  }

  lemma {:induction false} UnescapeAlike(p: string, q: string)
    requires SlashesAlike(p, q)
    ensures Unescape(p).Some? <==> Unescape(q).Some?
    ensures Unescape(p).Some? ==> SlashesAlike(Unescape(p).value, Unescape(q).value)
    decreases |p|
  {
    if p != "" {
      if p[0] != '%' {
        UnescapeAlike(p[1..], q[1..]);
      } else if |p| >= 3 && IsHex(p[1]) && IsHex(p[2]) {
        UnescapeAlike(p[3..], q[3..]);
      }
    }
  }

  lemma EncodedAlike(p: string, q: string)
    requires SlashesAlike(p, q)
    ensures StillEncoded(p) <==> StillEncoded(q)
  {
    if i :| 0 <= i < |p| && EncodedAt(p, i) { assert EncodedAt(q, i); }
    if i :| 0 <= i < |q| && EncodedAt(q, i) { assert EncodedAt(p, i); }
  }

  /** Paths that differ only in the lean of their slashes normalise alike. */
  lemma SlashesNormaliseAlike(p: string, q: string)
    requires SlashesAlike(p, q)
    ensures Normalise(p) == Normalise(q)
  {
    BeforeAlike(p, q, {'?', '#'});
    var p1, q1 := Before(p, {'?', '#'}), Before(q, {'?', '#'});
    UnescapeAlike(p1, q1);
    if Unescape(p1).Some? {
      var u, v := Unescape(p1).value, Unescape(q1).value;
      EncodedAlike(u, v);
      assert '\0' in u <==> '\0' in v;
      assert FoldBackslash(u) == FoldBackslash(v);
    }
  }

  // ---------- Parameters ----------

  lemma {:induction false} CutAppend(a: seq<string>, b: seq<string>)
    ensures CutAll(a + b) == CutAll(a) + CutAll(b)
  {
  }

  /** Each part between slashes is stripped by itself. */
  lemma StrippedByParts(x: string, y: string)
    ensures Stripped(x + "/" + y) == Stripped(x) + "/" + Stripped(y)
  {
    SplitAppend(x, y);
    CutAppend(Split(x), Split(y));
    JoinAppend(CutAll(Split(x)), CutAll(Split(y)));
  }

  /** And loses what follows its first semicolon. */
  lemma ParametersIgnored(seg: string, params: string)
    requires '/' !in seg && ';' !in seg && '/' !in params
    ensures Stripped(seg + ";" + params) == seg
  {
    StrippedLast(seg + ";" + params);
    BeforeMark(seg, ';', params, {';'});
  }

  // ---------- What is refused ----------

  /** A dot, or a slash of either kind, encoded once more. */
  predicate EscapeAt(s: string, i: int) {
    0 <= i <= |s| - 3 && s[i..i + 3] in {"%2e", "%2E", "%2f", "%2F", "%5c", "%5C"}
  }

  lemma EscapeExactly(s: string, i: int)
    ensures EscapeAt(s, i) <==> EncodedAt(s, i)
  {
    if 0 <= i <= |s| - 3 { assert s[i..i + 3] == [s[i], s[i + 1], s[i + 2]]; }
  }

  /** What is looked for after decoding is such an escape anywhere. */
  lemma EncodedExactly(s: string)
    ensures StillEncoded(s) <==> exists i :: EscapeAt(s, i)
  {
    if i :| 0 <= i < |s| && EncodedAt(s, i) { EscapeExactly(s, i); }
    if i :| EscapeAt(s, i) { EscapeExactly(s, i); }
  }

  /** A path is refused exactly if what comes before its query is no encoding, does not start with a
      slash, or decodes to a text with a NUL or with another encoded dot or slash in it. */
  lemma RefusedExactly(p: string)
    ensures var u := Unescape(Before(p, {'?', '#'}));
            Normalise(p).None? <==>
            || u.None? || u.value == "" || !IsSlash(u.value[0]) || '\0' in u.value
            || exists i :: EscapeAt(u.value, i)
  {
    var u := Unescape(Before(p, {'?', '#'}));
    if u.Some? {
      EncodedExactly(u.value);
      var folded := FoldBackslash(u.value);
      assert "/" <= folded <==> folded != "" && folded[0] == '/';
    }
  }
}
