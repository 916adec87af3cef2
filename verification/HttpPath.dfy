/** Normalisation and matching of HTTP request paths (app-policy/checker/match.go:330-492;
    sections 5.2.4 and 6.2.2 of RFC 3986). A string is a sequence of bytes, one char each. */
module HttpPath {

  datatype Option<T> = None | Some(value: T)

  // ---------- Segments ----------

  function Split(s: string): (segs: seq<string>)
    ensures segs != []
  {
    if s == "" then [""]
    else if s[0] == '/' then [""] + Split(s[1..])
    else var rest := Split(s[1..]); [[s[0]] + rest[0]] + rest[1..]
  }

  function Join(segs: seq<string>): string {
    if segs == [] then ""
    else if |segs| == 1 then segs[0]
    else segs[0] + "/" + Join(segs[1..])
  }

  lemma {:induction false} JoinSplit(s: string)
    ensures Join(Split(s)) == s
  {
    if s != "" {
      JoinSplit(s[1..]);
      JoinCons(s[0], Split(s[1..]));
      assert [s[0]] + s[1..] == s;
    }
  }

  lemma JoinCons(c: char, segs: seq<string>)
    requires segs != []
    ensures Join(Cons(c, segs)) == [c] + Join(segs)
  {
    assert ([""] + segs)[1..] == segs && ([[c] + segs[0]] + segs[1..])[1..] == segs[1..];
  }

  lemma {:induction false} SplitOne(s: string)
    requires '/' !in s
    ensures Split(s) == [s]
  {
    if s != "" {
      SplitOne(s[1..]);
      assert [s[0]] + s[1..] == s;
    }
  }

  /** How one more character at the front changes the segments. */
  function Cons(c: char, segs: seq<string>): seq<string>
    requires segs != []
  {
    if c == '/' then [""] + segs else [[c] + segs[0]] + segs[1..]
  }

  lemma SplitCons(c: char, s: string)
    ensures Split([c] + s) == Cons(c, Split(s))
  {
    assert ([c] + s)[1..] == s;
  }

  lemma ConsAppend(c: char, a: seq<string>, b: seq<string>)
    requires a != []
    ensures Cons(c, a + b) == Cons(c, a) + b
  {
    assert (a + b)[1..] == a[1..] + b;
  }

  lemma {:induction false} SplitAppend(x: string, y: string)
    ensures Split(x + "/" + y) == Split(x) + Split(y)
  {
    var all := x + "/" + y;
    if x == "" {
      assert all[1..] == y;
    } else {
      SplitAppend(x[1..], y);
      assert all[1..] == x[1..] + "/" + y && all[0] == x[0];
      SplitCons(x[0], x[1..] + "/" + y);
      SplitCons(x[0], x[1..]);
      assert [x[0]] + (x[1..] + "/" + y) == all && [x[0]] + x[1..] == x;
      ConsAppend(x[0], Split(x[1..]), Split(y));
    }
  }

  lemma {:induction false} SplitJoin(segs: seq<string>)
    requires segs != [] && forall i :: 0 <= i < |segs| ==> '/' !in segs[i]
    ensures Split(Join(segs)) == segs
  {
    SplitOne(segs[0]);
    if |segs| > 1 {
      SplitJoin(segs[1..]);
      SplitAppend(segs[0], Join(segs[1..]));
    }
  }

  /** Every segment is a stretch of the string, and holds no separator. */
  lemma {:induction false} SegmentWithin(s: string, i: nat) returns (from: nat)
    requires i < |Split(s)|
    ensures '/' !in Split(s)[i]
    ensures from + |Split(s)[i]| <= |s| && s[from..from + |Split(s)[i]|] == Split(s)[i]
    ensures i == 0 ==> from == 0
  {
    from := 0;
    if s != "" {
      var rest := Split(s[1..]);
      if s[0] == '/' {
        if i > 0 {
          var f := SegmentWithin(s[1..], i - 1);
          ShiftStretch(s, f, rest[i - 1]);
          from := f + 1;
        }
      } else {
        var f := SegmentWithin(s[1..], i);
        ShiftStretch(s, f, rest[i]);
        from := if i == 0 then 0 else f + 1;
      }
    }
  }

  lemma ShiftStretch(s: string, f: nat, seg: string)
    requires s != "" && f + |seg| <= |s[1..]| && s[1..][f..f + |seg|] == seg
    ensures s[f + 1..f + 1 + |seg|] == seg
    ensures f == 0 ==> s[0..1 + |seg|] == [s[0]] + seg
  {
    assert s[1..][f..f + |seg|] == s[f + 1..f + 1 + |seg|];
    assert s[0..1 + |seg|] == [s[0]] + s[1..1 + |seg|];
  }

  // ---------- The steps of normalisation ----------

  function Before(s: string, stop: set<char>): (r: string)
    ensures r <= s && forall c :: c in r ==> c !in stop
    ensures r == s <==> forall c :: c in s ==> c !in stop
    ensures |r| < |s| ==> s[|r|] in stop
  {
    if s == "" || s[0] in stop then "" else [s[0]] + Before(s[1..], stop)
  }

  predicate IsHex(c: char) { '0' <= c <= '9' || 'a' <= c <= 'f' || 'A' <= c <= 'F' }

  function HexValue(c: char): (v: nat)
    requires IsHex(c)
    ensures v < 16
  {
    if c <= '9' then c as int - '0' as int
    else if c <= 'F' then c as int - 'A' as int + 10
    else c as int - 'a' as int + 10
  }

  /** url.PathUnescape */
  function Unescape(s: string): (r: Option<string>)
    ensures r.Some? ==> |r.value| <= |s| && (r.value == s <==> '%' !in s)
    ensures '%' !in s ==> r == Some(s)
    ensures r.Some? && '%' in s ==> |r.value| < |s|
  {
    if s == "" then Some("")
    else if s[0] != '%' then
      match Unescape(s[1..])
      case None => None
      case Some(rest) => assert [s[0]] + s[1..] == s; Some([s[0]] + rest)
    else if |s| < 3 || !IsHex(s[1]) || !IsHex(s[2]) then None
    else
      match Unescape(s[3..])
      case None => None
      case Some(rest) => Some([(HexValue(s[1]) * 16 + HexValue(s[2])) as char] + rest)
  }

  /** A percent-encoded ".", "/" or "\" at i. */
  predicate EncodedAt(s: string, i: int) {
    0 <= i && i + 3 <= |s| && s[i] == '%' &&
    ((s[i + 1] == '2' && s[i + 2] in {'e', 'E', 'f', 'F'}) || (s[i + 1] == '5' && s[i + 2] in {'c', 'C'}))
  }

  predicate StillEncoded(s: string) {
    exists i | 0 <= i < |s| :: EncodedAt(s, i)
  }

  function FoldBackslash(s: string): string {
    seq(|s|, i requires 0 <= i < |s| => if s[i] == '\\' then '/' else s[i])
  }

  function CutAll(segs: seq<string>): seq<string> {
    seq(|segs|, i requires 0 <= i < |segs| => Before(segs[i], {';'}))
  }

  /** Every segment loses its matrix parameters: split, cut, join. */
  function Stripped(s: string): string {
    Join(CutAll(Split(s)))
  }

  /** Resolve "." and ".." and drop empty segments, from the root. */
  function Resolve(segs: seq<string>, stack: seq<string>): seq<string> {
    if segs == [] then stack
    else if segs[0] == "" || segs[0] == "." then Resolve(segs[1..], stack)
    else if segs[0] == ".." then Resolve(segs[1..], if stack == [] then [] else stack[..|stack| - 1])
    else Resolve(segs[1..], stack + [segs[0]])
  }

  function Rooted(segs: seq<string>): string {
    "/" + Join(segs)
  }

  /** path.Clean on a rooted path. */
  function Clean(s: string): string {
    Rooted(Resolve(Split(s), []))
  }

  /** normalizeHTTPPath */
  function Normalise(p: string): Option<string> {
    var u := Unescape(Before(p, {'?', '#'}));
    if u.None? || StillEncoded(u.value) || '\0' in u.value then None
    else
      var folded := FoldBackslash(u.value);
      if !("/" <= folded) then None
      else Some(Clean(if ';' in folded then Stripped(folded) else folded))
  }

  // ---------- What a normalised path looks like ----------

  predicate PlainSegment(seg: string) {
    seg != "" && seg != "." && seg != ".." &&
    '/' !in seg && ';' !in seg && '\\' !in seg && '\0' !in seg && !StillEncoded(seg)
  }

  predicate Plain(segs: seq<string>) {
    forall i :: 0 <= i < |segs| ==> PlainSegment(segs[i])
  }

  /** The segments of a normalised path. */
  function Segments(p: string): seq<string> {
    if p == "/" || p == "" then [] else Split(p[1..])
  }

  /** Resolving keeps only segments it was given, less the special ones. */
  lemma {:induction false} ResolveKeeps(segs: seq<string>, stack: seq<string>)
    ensures forall seg :: seg in Resolve(segs, stack) ==>
              seg in stack || (seg in segs && seg != "" && seg != "." && seg != "..")
    decreases |segs|
  {
    if segs != [] {
      ResolveKeeps(segs[1..], stack);
      ResolveKeeps(segs[1..], if stack == [] then [] else stack[..|stack| - 1]);
      ResolveKeeps(segs[1..], stack + [segs[0]]);
    }
  }

  lemma WithinEncoded(s: string, from: nat, to: nat)
    requires from <= to <= |s|
    ensures StillEncoded(s[from..to]) ==> StillEncoded(s)
  {
    if StillEncoded(s[from..to]) {
      var i :| 0 <= i < to - from && EncodedAt(s[from..to], i);
      assert EncodedAt(s, from + i);
    }
  }

  lemma FoldKeepsEncoded(s: string)
    ensures StillEncoded(FoldBackslash(s)) ==> StillEncoded(s)
  {
    if StillEncoded(FoldBackslash(s)) {
      var i :| 0 <= i < |s| && EncodedAt(FoldBackslash(s), i);
      assert EncodedAt(s, i);
    }
  }

  /** The segments that reach path.Clean, with or without parameters to strip. */
  function Cut(folded: string): seq<string> {
    if ';' in folded then CutAll(Split(folded)) else Split(folded)
  }

  lemma {:induction false} CutSplit(folded: string)
    ensures Split(if ';' in folded then Stripped(folded) else folded) == Cut(folded)
  {
    if ';' in folded {
      forall i | 0 <= i < |Split(folded)| ensures '/' !in CutAll(Split(folded))[i] {
        var _ := SegmentWithin(folded, i);
      }
      SplitJoin(CutAll(Split(folded)));
    }
  }

  /** A cut segment is still a stretch of the string. */
  lemma CutWithin(folded: string, i: nat, seg: string) returns (from: nat)
    requires i < |Cut(folded)| && seg == Cut(folded)[i]
    ensures from + |seg| <= |folded| && folded[from..from + |seg|] == seg && '/' !in seg && ';' !in seg
  {
    from := SegmentWithin(folded, i);
    var whole := Split(folded)[i];
    assert seg <= whole;
    assert folded[from..from + |seg|] == folded[from..from + |whole|][..|seg|];
  }

  lemma StretchPlain(s: string, from: nat, seg: string)
    requires from + |seg| <= |s| && s[from..from + |seg|] == seg
    requires !StillEncoded(s) && '\0' !in s && '\\' !in s
    requires seg != "" && seg != "." && seg != ".." && '/' !in seg && ';' !in seg
    ensures PlainSegment(seg)
  {
    WithinEncoded(s, from, from + |seg|);
  }

  lemma ResolvedPlain(folded: string)
    requires !StillEncoded(folded) && '\0' !in folded && '\\' !in folded
    ensures Plain(Resolve(Cut(folded), []))
  {
    var segs := Cut(folded);
    var out := Resolve(segs, []);
    ResolveKeeps(segs, []);
    forall k | 0 <= k < |out| ensures PlainSegment(out[k]) {
      var seg := out[k];
      assert seg in out;
      var i :| 0 <= i < |segs| && segs[i] == seg;
      var from := CutWithin(folded, i, seg);
      StretchPlain(folded, from, seg);
    }
  }

  /** Every normalised path is rooted, and made of plain segments. */
  lemma NormalisedIsPlain(p: string)
    requires Normalise(p).Some?
    ensures Normalise(p).value == Rooted(Segments(Normalise(p).value))
    ensures Plain(Segments(Normalise(p).value))
  {
    var u := Unescape(Before(p, {'?', '#'})).value;
    var folded := FoldBackslash(u);
    FoldKeepsEncoded(u);
    CutSplit(folded);
    ResolvedPlain(folded);
    RootedSegments(Resolve(Cut(folded), []));
  }

  /** A rooted path determines its segments. */
  lemma RootedSegments(segs: seq<string>)
    requires Plain(segs)
    ensures Segments(Rooted(segs)) == segs
  {
    if segs != [] {
      assert PlainSegment(segs[0]);
      assert Join(segs) != "";
      assert Rooted(segs)[1..] == Join(segs);
      SplitJoin(segs);
    }
  }

  // ---------- Normalising again ----------

  lemma {:induction false} ResolvePlain(segs: seq<string>, stack: seq<string>)
    requires Plain(segs)
    ensures Resolve(segs, stack) == stack + segs
    decreases |segs|
  {
    if segs != [] {
      assert PlainSegment(segs[0]);
      ResolvePlain(segs[1..], stack + [segs[0]]);
    }
  }

  lemma {:induction false} JoinPlainChars(segs: seq<string>, c: char)
    requires Plain(segs) && c in {';', '\\', '\0'}
    ensures c !in Join(segs)
  {
    if segs != [] {
      assert PlainSegment(segs[0]);
      if |segs| > 1 { JoinPlainChars(segs[1..], c); }
    }
  }

  /** Joined plain segments hold no encoded separator or dot: an escape never spans a "/". */
  lemma {:induction false} JoinPlainEncoded(segs: seq<string>)
    requires Plain(segs)
    ensures !StillEncoded(Join(segs))
  {
    if segs != [] {
      assert PlainSegment(segs[0]);
      if |segs| > 1 {
        JoinPlainEncoded(segs[1..]);
        EncodedAcross(segs[0], Join(segs[1..]));
      }
    }
  }

  lemma EncodedAcross(x: string, y: string)
    ensures StillEncoded(x + "/" + y) ==> StillEncoded(x) || StillEncoded(y)
  {
    var s := x + "/" + y;
    if StillEncoded(s) {
      var i :| 0 <= i < |s| && EncodedAt(s, i);
      assert s[|x|] == '/';
      if i > |x| {
        assert EncodedAt(y, i - |x| - 1);
      } else {
        assert EncodedAt(x, i);
      }
    }
  }

  lemma {:induction false} ResolveShort(segs: seq<string>, stack: seq<string>)
    ensures |Rooted(Resolve(segs, stack))| <= |Join(stack + segs)| + 1
    decreases |segs|
  {
    if segs == [] {
      assert stack + segs == stack;
    } else {
      var rest := segs[1..];
      assert stack + segs == stack + [segs[0]] + rest;
      if segs[0] == "" || segs[0] == "." {
        ResolveShort(rest, stack);
        DropShort(stack, [segs[0]], rest);
      } else if segs[0] == ".." {
        var popped := if stack == [] then [] else stack[..|stack| - 1];
        ResolveShort(rest, popped);
        DropShort(popped, stack[|popped|..] + [segs[0]], rest);
        assert popped + (stack[|popped|..] + [segs[0]]) + rest == stack + segs;
      } else {
        ResolveShort(rest, stack + [segs[0]]);
      }
    }
  }

  lemma {:induction false} JoinLength(a: seq<string>, b: seq<string>)
    ensures |Join(a + b)| == |Join(a)| + |Join(b)| + if a != [] && b != [] then 1 else 0
    decreases |a|
  {
    if a == [] {
      assert a + b == b;
    } else if b == [] {
      assert a + b == a;
    } else {
      JoinLength(a[1..], b);
      assert (a + b)[1..] == a[1..] + b;
    }
  }

  lemma DropShort(a: seq<string>, gone: seq<string>, b: seq<string>)
    ensures |Join(a + b)| <= |Join(a + gone + b)|
  {
    JoinLength(a, b);
    JoinLength(a + gone, b);
    JoinLength(a, gone);
  }

  lemma {:induction false} CutShort(segs: seq<string>)
    ensures |Join(CutAll(segs))| <= |Join(segs)|
  {
    if |segs| > 1 {
      CutShort(segs[1..]);
      assert CutAll(segs)[1..] == CutAll(segs[1..]);
    }
  }

  /** Normalising never lengthens the text it keeps. */
  lemma CleanShort(folded: string)
    requires "/" <= folded
    ensures |Clean(if ';' in folded then Stripped(folded) else folded)| <= |folded|
  {
    CutSplit(folded);
    var segs := Cut(folded);
    JoinSplit(folded);
    CutShort(Split(folded));
    assert Split(folded)[0] == "" && segs[0] == "";
    JoinLength([segs[0]], segs[1..]);
    assert segs == [segs[0]] + segs[1..];
    assert Split(folded) == [""] + Split(folded[1..]);
    assert |segs| > 1;
    ResolveShort(segs[1..], []);
    assert [] + segs[1..] == segs[1..];
  }

  /** A character that the first steps act on makes the path shorter, if it survives at all. */
  lemma RenormaliseShortens(r: string)
    requires '%' in r || '?' in r || '#' in r
    ensures Normalise(r).Some? ==> |Normalise(r).value| < |r|
  {
    if Normalise(r).Some? {
      var u := Unescape(Before(r, {'?', '#'})).value;
      CleanShort(FoldBackslash(u));
    }
  }

  lemma RenormaliseSame(segs: seq<string>)
    requires Plain(segs) && '%' !in Rooted(segs) && '?' !in Rooted(segs) && '#' !in Rooted(segs)
    ensures Normalise(Rooted(segs)) == Some(Rooted(segs))
  {
    var r := Rooted(segs);
    JoinPlainChars(segs, ';');
    JoinPlainChars(segs, '\\');
    JoinPlainChars(segs, '\0');
    JoinPlainEncoded(segs);
    EncodedAcross("", Join(segs));
    assert "" + "/" + Join(segs) == r;
    assert FoldBackslash(r) == r;
    RejoinedSegments(segs);
  }

  /** Normalising a second time changes nothing, exactly when the path holds no character that
      the first steps would act on again. */
  lemma RenormaliseExactly(p: string)
    requires Normalise(p).Some?
    ensures var r := Normalise(p).value;
            Normalise(r) == Some(r) <==> '%' !in r && '?' !in r && '#' !in r
  {
    var r := Normalise(p).value;
    if '%' in r || '?' in r || '#' in r {
      RenormaliseShortens(r);
    } else {
      NormalisedIsPlain(p);
      RenormaliseSame(Segments(r));
    }
  }

  /** For one: an escaped question mark. */
  lemma RenormaliseCanChange(p: string, once: string)
    requires p == "/%3f" && once == "/?"
    ensures Normalise(p) == Some(once) && Normalise(once) != Some(once)
  {
    var seg := "?";
    assert once == "/" + seg;
    UnescapeMark(p);
    assert forall c :: c in p ==> c != '?' && c != '#';
    assert forall i | 0 <= i < |seg| :: !EncodedAt(seg, i);
    NormaliseOne(p, seg);
    RenormaliseExactly(p);
    assert once[1] == '?';
  }

  lemma UnescapeMark(p: string)
    requires p == "/%3f"
    ensures Unescape(p) == Some("/?")
  {
    var tail := p[1..];
    assert |tail| == 3 && tail[0] == '%' && tail[1] == '3' && tail[2] == 'f';
    assert tail[3..] == "" && HexValue('3') == 3 && HexValue('f') == 15 && 63 as char == '?';
    assert Unescape(tail[3..]) == Some("") && ['?'] + "" == ['?'];
    assert Unescape(tail) == Some(['?']);
    assert ['/'] + ['?'] == "/?";
  }

  lemma NormaliseOne(p: string, seg: string)
    requires Unescape(Before(p, {'?', '#'})) == Some("/" + seg) && PlainSegment(seg)
    ensures Normalise(p) == Some("/" + seg)
  {
    EncodedAcross("", seg);
    assert "" + "/" + seg == "/" + seg;
    assert FoldBackslash("/" + seg) == "/" + seg;
    CleanOne(seg);
  }

  lemma CleanOne(seg: string)
    requires PlainSegment(seg)
    ensures Clean("/" + seg) == "/" + seg
  {
    RejoinedSegments([seg]);
    assert Rooted([seg]) == "/" + seg;
  }

  lemma RejoinedSegments(segs: seq<string>)
    requires Plain(segs)
    ensures Clean(Rooted(segs)) == Rooted(segs)
  {
    assert Rooted(segs)[1..] == Join(segs);
    assert Split(Rooted(segs)) == [""] + Split(Join(segs));
    if segs == [] {
      assert Split(Rooted(segs)) == ["", ""];
      assert Resolve(["", ""], []) == Resolve(["", ""][1..], []);
    } else {
      forall i | 0 <= i < |segs| ensures '/' !in segs[i] { assert PlainSegment(segs[i]); }
      SplitJoin(segs);
      assert ([""] + segs)[1..] == segs;
      assert Resolve([""] + segs, []) == Resolve(segs, []);
      ResolvePlain(segs, []);
      assert [] + segs == segs;
    }
  }

  // ---------- The parameter-stripping loop ----------

  function IndexOf(s: string, c: char): (i: int)
    ensures i < 0 <==> c !in s
    ensures -1 <= i < |s| && (i >= 0 ==> s[i] == c && c !in s[..i])
  {
    if s == "" then -1
    else if s[0] == c then 0
    else
      var i := IndexOf(s[1..], c);
      assert [s[0]] + s[1..] == s;
      assert i >= 0 ==> s[..i + 1] == [s[0]] + s[1..][..i];
      if i < 0 then -1 else i + 1
  }

  lemma StrippedFirst(s: string, j: nat)
    requires j < |s| && s[j] == '/' && '/' !in s[..j]
    ensures Stripped(s) == Before(s[..j], {';'}) + "/" + Stripped(s[j + 1..])
  {
    assert s == s[..j] + "/" + s[j + 1..];
    SplitAppend(s[..j], s[j + 1..]);
    SplitOne(s[..j]);
    assert CutAll(Split(s))[1..] == CutAll(Split(s[j + 1..]));
  }

  lemma StrippedLast(s: string)
    requires '/' !in s
    ensures Stripped(s) == Before(s, {';'}) && Stripped("") == ""
  {
    SplitOne(s);
  }

  lemma {:induction false} BeforeIs(s: string, k: nat)
    requires k < |s| && s[k] == ';' && ';' !in s[..k]
    ensures Before(s, {';'}) == s[..k]
  {
    if k > 0 {
      assert s[0] in s[..k] && s[1..][..k - 1] == s[..k][1..];
      BeforeIs(s[1..], k - 1);
    }
  }

  method CutParams(seg: string) returns (cut: string)
    ensures cut == Before(seg, {';'})
  {
    cut := seg;
    var k := IndexOf(seg, ';');
    if k >= 0 {
      BeforeIs(seg, k);
      cut := seg[..k];
    }
  }

  /** One segment without its parameters, with the slash after it if there is one. */
  method StripOne(rest: string) returns (piece: string, used: nat)
    requires rest != ""
    ensures 0 < used <= |rest| && Stripped(rest) == piece + Stripped(rest[used..])
  {
    var j := IndexOf(rest, '/');
    if j < 0 {
      StrippedLast(rest);
      piece := CutParams(rest);
      used := |rest|;
      assert rest[used..] == "" && piece + "" == piece;
    } else {
      StrippedFirst(rest, j);
      piece := CutParams(rest[..j]);
      piece, used := piece + "/", j + 1;
    }
  }

  /** The text that is still to be stripped. */
  ghost function StrippedFrom(p: string, i: nat): string
    requires i <= |p|
  {
    Stripped(p[i..])
  }

  lemma StrippedEnds(p: string)
    ensures StrippedFrom(p, 0) == Stripped(p) && StrippedFrom(p, |p|) == ""
  {
    assert p[0..] == p && p[|p|..] == "";
    StrippedLast("");
  }

  method StripAt(p: string, i: nat) returns (piece: string, next: nat)
    requires i < |p|
    ensures i < next <= |p| && StrippedFrom(p, i) == piece + StrippedFrom(p, next)
  {
    var used;
    piece, used := StripOne(p[i..]);
    next := i + used;
    assert p[i..][used..] == p[next..];
  }

  /** stripMatrixParams: the index loop strips each segment's parameters and keeps the slashes. */
  method StripMatrixParams(p: string) returns (out: string)
    ensures out == Stripped(p)
  {
    out := "";
    var i := 0;
    ghost var tail := StrippedFrom(p, 0);
    ghost var all := tail;
    while i < |p|
      invariant 0 <= i <= |p| && tail == StrippedFrom(p, i) && out + tail == all
    {
      var piece, next := StripAt(p, i);
      tail := StrippedFrom(p, next);
      Regroup(out, piece, tail);
      out, i := out + piece, next;
    }
    StrippedEnds(p);
  }

  lemma Regroup(x: string, y: string, z: string)
    ensures x + (y + z) == x + y + z
  {
  }

  // ---------- Matching ----------

  /** segmentPrefixMatch */
  predicate SegmentPrefixMatch(req: string, prefix: string) {
    if prefix == "/" then "/" <= req
    else req == prefix || prefix + "/" <= req
  }

  lemma {:induction false} JoinAppend(a: seq<string>, b: seq<string>)
    requires a != [] && b != []
    ensures Join(a + b) == Join(a) + "/" + Join(b)
  {
    if |a| > 1 {
      JoinAppend(a[1..], b);
      assert (a + b)[1..] == a[1..] + b;
    } else {
      assert (a + b)[1..] == b;
    }
  }

  lemma ExtensionMatches(a: seq<string>, b: seq<string>)
    requires b != [] && b < a
    ensures Rooted(b) + "/" <= Rooted(a)
  {
    var c := a[|b|..];
    JoinAppend(b, c);
    assert a == b + c;
    assert Rooted(a) == Rooted(b) + "/" + Join(c);
  }

  lemma MatchExtends(req: string, prefix: string)
    requires prefix != "" && prefix != "/" && prefix + "/" <= req
    ensures Segments(prefix) <= Segments(req)
  {
    var rest := req[|prefix| + 1..];
    assert req == prefix + "/" + rest;
    assert req[1..] == prefix[1..] + "/" + rest;
    SplitAppend(prefix[1..], rest);
  }

  /** A prefix rule matches exactly the paths that extend it by whole segments. */
  lemma PrefixMatchExactly(req: string, prefix: string)
    requires Plain(Segments(req)) && req == Rooted(Segments(req))
    requires Plain(Segments(prefix)) && prefix == Rooted(Segments(prefix))
    ensures SegmentPrefixMatch(req, prefix) <==> Segments(prefix) <= Segments(req)
  {
    var a, b := Segments(req), Segments(prefix);
    if b != [] {
      assert PlainSegment(b[0]);
      assert Join(b) != "" && prefix != "/";
      if b <= a && b != a { ExtensionMatches(a, b); }
      if prefix + "/" <= req { MatchExtends(req, prefix); }
    }
  }

  datatype PathMatch = Exact(path: string) | Prefix(path: string)

  /** What a path criterion of a rule means for a normalised request. */
  ghost predicate Covers(m: PathMatch, req: string) {
    var n := Normalise(m.path);
    n.Some? && match m case Exact(_) => Segments(n.value) == Segments(req)
                       case Prefix(_) => Segments(n.value) <= Segments(req)
  }

  /** What the matcher computes for it. */
  predicate Accepts(m: PathMatch, req: string) {
    var n := Normalise(m.path);
    n.Some? && match m case Exact(_) => req == n.value
                       case Prefix(_) => SegmentPrefixMatch(req, n.value)
  }

  lemma AcceptsExactly(m: PathMatch, req: string)
    requires Plain(Segments(req)) && req == Rooted(Segments(req))
    ensures Accepts(m, req) <==> Covers(m, req)
  {
    if Normalise(m.path).Some? {
      NormalisedIsPlain(m.path);
      PrefixMatchExactly(req, Normalise(m.path).value);
    }
  }

  datatype PathOutcome = Matched(yes: bool) | InvalidPath

  ghost predicate SomeCovers(paths: seq<PathMatch>, req: string) {
    exists i :: 0 <= i < |paths| && Covers(paths[i], req)
  }

  predicate SomeAccepts(paths: seq<PathMatch>, req: string) {
    exists i :: 0 <= i < |paths| && Accepts(paths[i], req)
  }

  lemma SomeAcceptsExactly(paths: seq<PathMatch>, req: string)
    requires Plain(Segments(req)) && req == Rooted(Segments(req))
    ensures SomeAccepts(paths, req) <==> SomeCovers(paths, req)
  {
    forall i | 0 <= i < |paths| ensures Accepts(paths[i], req) <==> Covers(paths[i], req) {
      AcceptsExactly(paths[i], req);
    }
  }

  method AnyAccepts(paths: seq<PathMatch>, req: string) returns (r: bool)
    ensures r <==> SomeAccepts(paths, req)
  {
    for i := 0 to |paths|
      invariant forall k :: 0 <= k < i ==> !Accepts(paths[k], req)
    {
      if Accepts(paths[i], req) { return true; }
    }
    return false;
  }

  /** Some criterion covers the request, segment by segment; or there is nothing to compare. */
  ghost function PathsOutcome(paths: seq<PathMatch>, req: Option<string>): PathOutcome {
    if paths == [] || req.None? then Matched(true)
    else if !("/" <= req.value) then InvalidPath
    else Matched(Normalise(req.value).Some? && SomeCovers(paths, Normalise(req.value).value))
  }

  /** matchHTTPPaths; the panic on a path that is not absolute is an outcome. */
  method MatchHttpPaths(paths: seq<PathMatch>, req: Option<string>) returns (r: PathOutcome)
    ensures r == PathsOutcome(paths, req)
  {
    if paths == [] || req.None? { return Matched(true); }
    if !("/" <= req.value) { return InvalidPath; }
    var n := Normalise(req.value);
    if n.None? { return Matched(false); }
    NormalisedIsPlain(req.value);
    SomeAcceptsExactly(paths, n.value);
    var any := AnyAccepts(paths, n.value);
    return Matched(any);
  }
}
