/** The dot-segment resolution that HTTP paths go through, against the algorithm of section
    5.2.4 of RFC 3986 (app-policy/checker/match.go:440-447). */
module DotSegments {
  import opened HttpPath

  // ---------- The algorithm of the RFC, on its input and output buffers ----------

  /** Remove the last segment and its preceding "/". */
  function Up(out: string): string {
    if out == "" then ""
    else if out[|out| - 1] == '/' then out[..|out| - 1]
    else Up(out[..|out| - 1])
  }

  function RemoveDots(input: string, out: string): string
    requires "/" <= input || input == ""
    decreases |input|
  {
    if input == "" then out
    else if input == "/." then out + "/"
    else if "/./" <= input then RemoveDots(input[2..], out)
    else if input == "/.." then Up(out) + "/"
    else if "/../" <= input then RemoveDots(input[3..], Up(out))
    else
      var n := 1 + |Before(input[1..], {'/'})|;
      RemoveDots(input[n..], out + input[..n])
  }

  // ---------- Both, on segments ----------

  function Slashed(segs: seq<string>): string {
    if segs == [] then "" else Slashed(segs[..|segs| - 1]) + "/" + segs[|segs| - 1]
  }

  predicate Dotty(seg: string) { seg == "" || seg == "." || seg == ".." }

  /** No empty segment but perhaps the last, which stands for a trailing slash. */
  predicate NoRepeatedSlash(segs: seq<string>) {
    forall i :: 0 <= i < |segs| - 1 ==> segs[i] != ""
  }

  predicate Unslashed(segs: seq<string>) {
    forall i :: 0 <= i < |segs| ==> '/' !in segs[i]
  }

  lemma {:induction false} UpSegment(out: string, seg: string)
    requires '/' !in seg
    ensures Up(out + "/" + seg) == out
    decreases |seg|
  {
    var all := out + "/" + seg;
    if seg == "" {
      assert all[..|all| - 1] == out;
    } else {
      var shorter := seg[..|seg| - 1];
      assert seg[|seg| - 1] in seg;
      assert all[..|all| - 1] == out + "/" + shorter;
      UpSegment(out, shorter);
    }
  }

  lemma UpSlashed(stack: seq<string>)
    requires Unslashed(stack)
    ensures Up(Slashed(stack)) == Slashed(if stack == [] then [] else stack[..|stack| - 1])
  {
    if stack != [] {
      UpSegment(Slashed(stack[..|stack| - 1]), stack[|stack| - 1]);
    }
  }

  lemma {:induction false} FirstSegment(seg: string, rest: string)
    requires '/' !in seg && (rest == "" || rest[0] == '/')
    ensures Before(seg + rest, {'/'}) == seg
    decreases |seg|
  {
    if seg != "" {
      assert (seg + rest)[1..] == seg[1..] + rest;
      FirstSegment(seg[1..], rest);
    } else {
      assert seg + rest == rest;
    }
  }

  ghost function Expected(segs: seq<string>, stack: seq<string>): string
    requires segs != []
  {
    Slashed(Resolve(segs, stack)) + if Dotty(segs[|segs| - 1]) then "/" else ""
  }

  lemma SlashedPush(stack: seq<string>, seg: string)
    ensures Slashed(stack + [seg]) == Slashed(stack) + "/" + seg
  {
    assert (stack + [seg])[..|stack|] == stack;
  }

  /** The stack after one segment. */
  function Pushed(seg: string, stack: seq<string>): seq<string> {
    if seg == "." then stack
    else if seg == ".." then (if stack == [] then [] else stack[..|stack| - 1])
    else stack + [seg]
  }

  lemma DotStep(more: string, out: string)
    ensures RemoveDots("/" + "." + "/" + more, out) == RemoveDots("/" + more, out)
  {
    var input := "/" + "." + "/" + more;
    assert input[2..] == "/" + more && "/./" <= input;
  }

  lemma DotDotStep(more: string, out: string)
    ensures RemoveDots("/" + ".." + "/" + more, out) == RemoveDots("/" + more, Up(out))
  {
    var input := "/" + ".." + "/" + more;
    assert input[2] == '.' && "/../" <= input && input[3..] == "/" + more;
  }

  predicate Undotted(input: string) {
    "/" <= input && input != "/." && input != "/.." && !("/./" <= input) && !("/../" <= input)
  }

  /** An ordinary segment moves to the output. */
  lemma Moved(input: string, seg: string, rest: string, out: string)
    requires Undotted(input) && input == "/" + seg + rest && '/' !in seg && (rest == "" || rest[0] == '/')
    ensures RemoveDots(input, out) == RemoveDots(rest, out + ("/" + seg))
  {
    assert input[1..] == seg + rest;
    FirstSegment(seg, rest);
    assert input[..1 + |seg|] == "/" + seg && input[1 + |seg|..] == rest;
  }

  lemma PlainStep(seg: string, more: string, out: string)
    requires '/' !in seg && seg != "." && seg != ".." && seg != ""
    ensures RemoveDots("/" + seg + "/" + more, out) == RemoveDots("/" + more, out + ("/" + seg))
  {
    var input := "/" + seg + "/" + more;
    NotDotted(seg, more);
    assert input == "/" + seg + ("/" + more);
    Moved(input, seg, "/" + more, out);
  }

  /** The RFC's step for one segment with more to come. */
  lemma OneStep(seg: string, more: string, stack: seq<string>)
    requires '/' !in seg && seg != "" && Unslashed(stack)
    ensures RemoveDots("/" + seg + "/" + more, Slashed(stack)) == RemoveDots("/" + more, Slashed(Pushed(seg, stack)))
  {
    if seg == "." {
      DotStep(more, Slashed(stack));
    } else if seg == ".." {
      UpSlashed(stack);
      DotDotStep(more, Slashed(stack));
    } else {
      PlainStep(seg, more, Slashed(stack));
      SlashedPush(stack, seg);
      assert Slashed(stack) + ("/" + seg) == Slashed(stack) + "/" + seg;
    }
  }

  lemma NotDotted(seg: string, more: string)
    requires '/' !in seg && seg != "." && seg != ".." && seg != ""
    ensures Undotted("/" + seg + "/" + more)
  {
    var input := "/" + seg + "/" + more;
    assert input[1] == seg[0] && input[1 + |seg|] == '/';
    if |seg| == 1 {
      assert seg == [seg[0]];
    } else {
      assert input[2] == seg[1] && seg[1] in seg;
      if |seg| == 2 {
        assert seg == [seg[0], seg[1]];
      } else {
        assert input[3] == seg[2] && seg[2] in seg;
      }
    }
  }

  lemma NotDottedLast(seg: string)
    requires '/' !in seg && seg != "." && seg != ".."
    ensures Undotted("/" + seg)
  {
    var input := "/" + seg;
    assert input[1..] == seg && "/."[1..] == "." && "/.."[1..] == "..";
    assert |seg| > 1 ==> input[2] == seg[1] && seg[1] in seg;
    assert |seg| > 2 ==> input[3] == seg[2] && seg[2] in seg;
  }

  lemma LastPlain(seg: string, out: string)
    requires '/' !in seg && seg != "." && seg != ".."
    ensures RemoveDots("/" + seg, out) == out + "/" + seg
  {
    var input := "/" + seg;
    NotDottedLast(seg);
    assert input == "/" + seg + "";
    Moved(input, seg, "", out);
    assert out + ("/" + seg) == out + "/" + seg;
  }

  lemma LastDots(out: string)
    ensures RemoveDots("/..", out) == Up(out) + "/"
  {
    assert "/.."[2] == '.';
  }

  /** The RFC's last step. */
  lemma LastStep(seg: string, stack: seq<string>)
    requires '/' !in seg && Unslashed(stack)
    ensures RemoveDots("/" + seg, Slashed(stack)) == Expected([seg], stack)
  {
    assert [seg][1..] == [];
    if seg == ".." {
      UpSlashed(stack);
      LastDots(Slashed(stack));
      assert "/" + seg == "/..";
      assert Resolve([seg], stack) == if stack == [] then [] else stack[..|stack| - 1];
    } else if seg != "." {
      LastPlain(seg, Slashed(stack));
      SlashedPush(stack, seg);
      assert Resolve([seg], stack) == if seg == "" then stack else stack + [seg];
      assert Slashed(stack) + "/" + "" == Slashed(stack) + "/";
    }
  }

  lemma {:induction false} SameSteps(segs: seq<string>, stack: seq<string>)
    requires segs != [] && Unslashed(segs) && NoRepeatedSlash(segs) && Unslashed(stack)
    ensures RemoveDots(Rooted(segs), Slashed(stack)) == Expected(segs, stack)
    decreases |segs|
  {
    if |segs| == 1 {
      LastStep(segs[0], stack);
      assert segs == [segs[0]];
    } else {
      var rest, next := segs[1..], Pushed(segs[0], stack);
      assert Rooted(segs) == "/" + segs[0] + "/" + Join(rest);
      OneStep(segs[0], Join(rest), stack);
      PushedUnslashed(segs[0], stack);
      SameSteps(rest, next);
      assert Resolve(segs, stack) == Resolve(rest, next);
      assert rest[|rest| - 1] == segs[|segs| - 1];
    }
  }

  lemma PushedUnslashed(seg: string, stack: seq<string>)
    requires '/' !in seg && Unslashed(stack)
    ensures Unslashed(Pushed(seg, stack))
  {
  }

  // ---------- The result ----------

  function TrimSlash(s: string): string {
    if |s| > 1 && s[|s| - 1] == '/' then s[..|s| - 1] else s
  }

  lemma {:induction false} SlashedIsRooted(segs: seq<string>)
    requires segs != []
    ensures Slashed(segs) == Rooted(segs)
    decreases |segs|
  {
    if |segs| > 1 {
      var front, last := segs[..|segs| - 1], segs[|segs| - 1];
      SlashedIsRooted(front);
      JoinAppend(front, [last]);
      assert front + [last] == segs;
    }
  }

  lemma {:induction false} LastPushed(segs: seq<string>, stack: seq<string>)
    requires segs != [] && !Dotty(segs[|segs| - 1])
    ensures Resolve(segs, stack) != [] && Resolve(segs, stack)[|Resolve(segs, stack)| - 1] == segs[|segs| - 1]
    decreases |segs|
  {
    if |segs| == 1 {
      assert Resolve(segs, stack) == stack + [segs[0]];
    } else {
      LastPushed(segs[1..], stack);
      LastPushed(segs[1..], if stack == [] then [] else stack[..|stack| - 1]);
      LastPushed(segs[1..], stack + [segs[0]]);
    }
  }

  lemma CleanWithoutRepeats(p: string)
    requires "/" <= p && NoRepeatedSlash(Split(p[1..]))
    ensures Clean(p) == TrimSlash(RemoveDots(p, ""))
  {
    var segs := Split(p[1..]);
    JoinSplit(p[1..]);
    assert p == Rooted(segs);
    forall i | 0 <= i < |segs| ensures '/' !in segs[i] { var _ := SegmentWithin(p[1..], i); }
    SameSteps(segs, []);
    assert Split(p) == [""] + segs;
    assert ([""] + segs)[1..] == segs;
    assert Resolve([""] + segs, []) == Resolve(segs, []);
    Trimmed(segs);
  }

  lemma Trimmed(segs: seq<string>)
    requires segs != [] && Unslashed(segs)
    ensures Rooted(Resolve(segs, [])) == TrimSlash(Expected(segs, []))
  {
    var r, d := Resolve(segs, []), Expected(segs, []);
    if Dotty(segs[|segs| - 1]) {
      assert d[..|d| - 1] == Slashed(r);
    } else {
      LastPushed(segs, []);
      var last := r[|r| - 1];
      assert d[|d| - 1] == last[|last| - 1] && last[|last| - 1] in last;
    }
    if r != [] { SlashedIsRooted(r); }
  }

  // ---------- Repeated slashes ----------

  /** Every run of slashes becomes one. */
  function Collapse(s: string): (r: string)
    ensures s != "" ==> r != "" && r[0] == s[0]
    ensures s == "" ==> r == ""
  {
    if |s| < 2 then s
    else if s[0] == '/' && s[1] == '/' then Collapse(s[1..])
    else [s[0]] + Collapse(s[1..])
  }

  predicate NoDouble(s: string) {
    forall i :: 0 <= i < |s| - 1 && s[i] == '/' ==> s[i + 1] != '/'
  }

  lemma {:induction false} CollapseLeavesNoDouble(s: string)
    ensures NoDouble(Collapse(s))
  {
    if |s| >= 2 {
      CollapseLeavesNoDouble(s[1..]);
      if !(s[0] == '/' && s[1] == '/') { NoDoubleCons(s[0], Collapse(s[1..])); }
    }
  }

  lemma NoDoubleCons(c: char, s: string)
    requires NoDouble(s) && (s != "" && c == '/' ==> s[0] != '/')
    ensures NoDouble([c] + s)
  {
    var all := [c] + s;
    forall i | 0 <= i < |all| - 1 && all[i] == '/' ensures all[i + 1] != '/' {
      assert i > 0 ==> all[i] == s[i - 1] && all[i + 1] == s[i - 1 + 1];
    }
  }

  /** Without a double slash, and past the first one, no segment but perhaps the last is empty. */
  lemma {:induction false} NoDoubleNoRepeat(s: string)
    requires NoDouble(s)
    ensures NoRepeatedSlash(if s != "" && s[0] == '/' then Split(s)[1..] else Split(s))
  {
    if s != "" {
      assert NoDouble(s[1..]) by {
        forall i | 0 <= i < |s[1..]| - 1 && s[1..][i] == '/' ensures s[1..][i + 1] != '/' {
          assert s[i + 1] == '/' && s[i + 1 + 1] != '/';
        }
      }
      NoDoubleNoRepeat(s[1..]);
      if s[0] == '/' {
        assert Split(s)[1..] == Split(s[1..]);
        assert |s| > 1 ==> s[0 + 1] != '/';
      } else {
        var rest := Split(s[1..]);
        assert Split(s) == [[s[0]] + rest[0]] + rest[1..];
      }
    }
  }

  function NonEmpty(segs: seq<string>): seq<string> {
    if segs == [] then []
    else if segs[0] == "" then NonEmpty(segs[1..])
    else [segs[0]] + NonEmpty(segs[1..])
  }

  lemma {:induction false} ResolveNonEmpty(segs: seq<string>, stack: seq<string>)
    ensures Resolve(segs, stack) == Resolve(NonEmpty(segs), stack)
    decreases |segs|
  {
    if segs != [] {
      var rest := segs[1..];
      assert segs[0] != "" ==> NonEmpty(segs)[1..] == NonEmpty(rest);
      ResolveNonEmpty(rest, stack);
      ResolveNonEmpty(rest, if stack == [] then [] else stack[..|stack| - 1]);
      ResolveNonEmpty(rest, stack + [segs[0]]);
    }
  }

  /** Collapsing keeps the first segment, and every segment after it that is not empty. */
  lemma {:induction false} CollapseKeepsSegments(s: string)
    ensures var a, b := Split(Collapse(s)), Split(s);
            a[0] == b[0] && NonEmpty(a[1..]) == NonEmpty(b[1..])
  {
    if |s| >= 2 {
      CollapseKeepsSegments(s[1..]);
      var a, b := Split(Collapse(s[1..])), Split(s[1..]);
      assert s == [s[0]] + s[1..];
      SplitCons(s[0], s[1..]);
      if s[0] == '/' && s[1] == '/' {
        assert b[0] == "" && Split(s)[1..] == b && NonEmpty(b) == NonEmpty(b[1..]);
      } else {
        SplitCons(s[0], Collapse(s[1..]));
        if s[0] == '/' {
          assert Cons(s[0], a)[1..] == a && Cons(s[0], b)[1..] == b;
        } else {
          assert Cons(s[0], a)[1..] == a[1..] && Cons(s[0], b)[1..] == b[1..];
        }
      }
    }
  }

  /** Cleaning a rooted path gives the answer of the RFC for the path with its repeated slashes
      collapsed, less a trailing slash. */
  lemma CleanIsRemoveDots(p: string)
    requires "/" <= p
    ensures Clean(p) == TrimSlash(RemoveDots(Collapse(p), ""))
  {
    var c := Collapse(p);
    CollapseLeavesNoDouble(p);
    NoDoubleNoRepeat(c);
    assert Split(c)[1..] == Split(c[1..]);
    CleanWithoutRepeats(c);
    CollapseKeepsSegments(p);
    var a, b := Split(c), Split(p);
    assert a[0] == "" && b[0] == "";
    ResolveNonEmpty(a, []);
    ResolveNonEmpty(b, []);
  }
}
