/** The `contentfilter` template filter of the blog blueprint: the stripped
    content is split into lines, blank lines are dropped, tag-shaped lines
    pass through (switching paragraph wrapping off at `<pre>` and back on
    at `</pre>`), and every other line is wrapped in `<p>…</p>` while
    wrapping is on. */
module BlogFilter {
  import opened Text

  /** `len(line.strip()) == 0`. */
  predicate IsBlank(line: string) {
    Strip(line) == []
  }

  /** `line[0] == "<" and line[-1] == ">"`. */
  predicate IsTagLine(line: string) {
    line != [] && line[0] == '<' && line[|line| - 1] == '>'
  }

  /** The `p_on` flag after a line: a tag-shaped line holding `<pre>` turns
      it off, then one holding `</pre>` turns it on; nothing else moves it. */
  function PAfter(line: string, pOn: bool): bool {
    if IsBlank(line) || !IsTagLine(line) then pOn
    else
      var afterPre := if Contains(line, "<pre>") then false else pOn;
      if Contains(line, "</pre>") then true else afterPre
  }

  /** The output line for a non-blank line under the flag `pOn`. */
  function Render(line: string, pOn: bool): string {
    if IsTagLine(line) || !pOn then line else "<p>" + Strip(line) + "</p>"
  }

  /** The output lines for `lines` when the flag starts as `pOn`. */
  function FilterLines(lines: seq<string>, pOn: bool): (r: seq<string>)
    ensures |r| == |NonBlank(lines)|
  {
    if lines == [] then []
    else if IsBlank(lines[0]) then FilterLines(lines[1..], pOn)
    else [Render(lines[0], pOn)] + FilterLines(lines[1..], PAfter(lines[0], pOn))
  }

  /** The non-blank lines, in order. */
  function NonBlank(lines: seq<string>): (r: seq<string>)
    ensures |r| <= |lines|
    ensures forall j :: 0 <= j < |r| ==> r[j] in lines && !IsBlank(r[j])
  {
    if lines == [] then []
    else if IsBlank(lines[0]) then NonBlank(lines[1..])
    else [lines[0]] + NonBlank(lines[1..])
  }

  /** Every non-blank line is kept, and in order: the kept lines of two runs
      are the kept lines of each, and a single line is kept exactly when it
      is not blank. */
  lemma {:induction false} NonBlankAppend(a: seq<string>, b: seq<string>)
    ensures NonBlank(a + b) == NonBlank(a) + NonBlank(b)
    ensures |a| == 1 ==> NonBlank(a) == if IsBlank(a[0]) then [] else [a[0]]
  {
    if a == [] {
      assert a + b == b;
    } else {
      var c := a + b;
      assert c[0] == a[0];
      assert c[1..] == a[1..] + b;
      NonBlankAppend(a[1..], b);
      if IsBlank(a[0]) {
        assert NonBlank(c) == NonBlank(c[1..]);
        assert NonBlank(a) == NonBlank(a[1..]);
      } else {
        assert NonBlank(c) == [a[0]] + (NonBlank(a[1..]) + NonBlank(b));
        assert NonBlank(a) == [a[0]] + NonBlank(a[1..]);
        Associate([a[0]], NonBlank(a[1..]), NonBlank(b));
      }
      if |a| == 1 {
        assert a[1..] == [];
      }
    }
  }

  /** The flag after a run of lines. */
  function PState(lines: seq<string>, pOn: bool): bool {
    if lines == [] then pOn else PState(lines[1..], PAfter(lines[0], pOn))
  }

  /** `contentfilter(content)`. */
  method ContentFilter(content: string) returns (out: string)
    ensures out == JoinLines(FilterLines(SplitLines(Strip(content)), true))
  {
    var lines := SplitLines(Strip(content));
    var output: seq<string> := [];
    var pOn := true;
    var i := 0;
    assert lines[i..] == lines;
    while i < |lines|
      invariant 0 <= i <= |lines|
      invariant output + FilterLines(lines[i..], pOn) == FilterLines(lines, true)
    {
      FilterStep(lines, i, pOn);
      var piece, pOn' := FilterLine(lines[i], pOn);
      Associate(output, piece, FilterLines(lines[i + 1..], pOn'));
      output, pOn := output + piece, pOn';
      i := i + 1;
    }
    assert lines[i..] == [];
    assert output == FilterLines(lines, true);
    out := JoinLines(output);
  }

  /** The body of the loop of `contentfilter`: what one line appends to
      `output_lines`, and the flag after it. */
  method FilterLine(line: string, pOn: bool) returns (piece: seq<string>, pOn': bool)
    ensures piece == if IsBlank(line) then [] else [Render(line, pOn)]
    ensures pOn' == PAfter(line, pOn)
  {
    piece, pOn' := [], pOn;
    if |Strip(line)| > 0 {
      if line[0] == '<' && line[|line| - 1] == '>' {
        if Contains(line, "<pre>") {
          pOn' := false;
        }
        assert pOn' == if Contains(line, "<pre>") then false else pOn;
        if Contains(line, "</pre>") {
          pOn' := true;
        }
        assert pOn' == PAfter(line, pOn);
        piece := [line];
      } else if pOn {
        piece := ["<p>" + Strip(line) + "</p>"];
      } else {
        piece := [line];
      }
    }
  }

  lemma Associate(a: seq<string>, b: seq<string>, c: seq<string>)
    ensures a + b + c == a + (b + c)
  {
  }

  /** How the output for `lines[i..]` starts. */
  lemma FilterStep(lines: seq<string>, i: nat, pOn: bool)
    requires i < |lines|
    ensures FilterLines(lines[i..], pOn) ==
              (if IsBlank(lines[i]) then [] else [Render(lines[i], pOn)])
              + FilterLines(lines[i + 1..], PAfter(lines[i], pOn))
  {
    assert lines[i..][0] == lines[i] && lines[i..][1..] == lines[i + 1..];
  }

  // ---------------------------------------------------------------------
  // What the filter emits

  /** The flag after `a + b` is the flag after `b`, started from the flag
      after `a`. */
  lemma {:induction false} PStateAppend(a: seq<string>, b: seq<string>, pOn: bool)
    ensures PState(a + b, pOn) == PState(b, PState(a, pOn))
  {
    if a == [] {
      assert a + b == b;
    } else {
      assert (a + b)[0] == a[0] && (a + b)[1..] == a[1..] + b;
      PStateAppend(a[1..], b, PAfter(a[0], pOn));
    }
  }

  /** One output line per non-blank line, in order: the `k`-th is the
      `k`-th non-blank line rendered under the flag its predecessors left. */
  lemma {:induction false} FilterLinesAt(lines: seq<string>, pOn: bool)
    ensures forall k :: 0 <= k < |NonBlank(lines)| ==>
              FilterLines(lines, pOn)[k] == Render(NonBlank(lines)[k], PState(NonBlank(lines)[..k], pOn))
  {
    if lines != [] {
      var l, rest := lines[0], lines[1..];
      if IsBlank(l) {
        FilterLinesAt(rest, pOn);
        assert NonBlank(lines) == NonBlank(rest);
        assert FilterLines(lines, pOn) == FilterLines(rest, pOn);
      } else {
        FilterLinesAt(rest, PAfter(l, pOn));
        assert NonBlank(lines) == [l] + NonBlank(rest);
        assert FilterLines(lines, pOn) == [Render(l, pOn)] + FilterLines(rest, PAfter(l, pOn));
        RenderedCons(l, NonBlank(rest), FilterLines(rest, PAfter(l, pOn)), pOn);
      }
    }
  }

  /** The inductive step of `FilterLinesAt`, on plain sequences. */
  lemma RenderedCons(l: string, ls: seq<string>, out: seq<string>, pOn: bool)
    requires |out| == |ls|
    requires forall k :: 0 <= k < |ls| ==> out[k] == Render(ls[k], PState(ls[..k], PAfter(l, pOn)))
    ensures forall k :: 0 <= k < |ls| + 1 ==>
              ([Render(l, pOn)] + out)[k] == Render(([l] + ls)[k], PState(([l] + ls)[..k], pOn))
  {
    forall k | 0 <= k < |ls| + 1
      ensures ([Render(l, pOn)] + out)[k] == Render(([l] + ls)[k], PState(([l] + ls)[..k], pOn))
    {
      if k > 0 {
        var pre := ([l] + ls)[..k];
        assert pre[0] == l && pre[1..] == ls[..k - 1];
        assert PState(pre, pOn) == PState(ls[..k - 1], PAfter(l, pOn));
      }
    }
  }

  /** A run of lines without a tag-shaped one leaves the flag alone. */
  lemma {:induction false} PStateNoTags(lines: seq<string>, pOn: bool)
    requires forall j :: 0 <= j < |lines| ==> !IsTagLine(lines[j])
    ensures PState(lines, pOn) == pOn
  {
    if lines != [] {
      PStateNoTags(lines[1..], pOn);
    }
  }

  /** How a tag-shaped line moves the flag: `<pre>` alone turns it off,
      `</pre>` turns it on whether or not `<pre>` is there too, and a line
      with neither leaves it alone, as do all other lines. */
  lemma PreTransitions(line: string, pOn: bool)
    ensures !IsBlank(line) && IsTagLine(line) && Contains(line, "<pre>") && !Contains(line, "</pre>") ==>
              !PAfter(line, pOn)
    ensures !IsBlank(line) && IsTagLine(line) && Contains(line, "</pre>") ==> PAfter(line, pOn)
    ensures !(IsTagLine(line) && (Contains(line, "<pre>") || Contains(line, "</pre>"))) ==>
              PAfter(line, pOn) == pOn
  {
  }

  /** The filter's output, read line by line: exactly one line per
      non-blank input line, in order, each tag-shaped line unchanged, every
      other line wrapped in `<p>…</p>` (stripped) when the flag is on and
      unchanged when it is off; and the joined output splits back into those
      lines. */
  lemma ContentFilterLines(content: string)
    ensures var ls := NonBlank(SplitLines(Strip(content)));
            var out := FilterLines(SplitLines(Strip(content)), true);
            && |out| == |ls|
            && (forall k :: 0 <= k < |ls| && IsTagLine(ls[k]) ==> out[k] == ls[k])
            && (forall k :: 0 <= k < |ls| && !IsTagLine(ls[k]) && PState(ls[..k], true) ==>
                  out[k] == "<p>" + Strip(ls[k]) + "</p>")
            && (forall k :: 0 <= k < |ls| && !PState(ls[..k], true) ==> out[k] == ls[k])
            && SplitLines(JoinLines(out)) == out
  {
    var lines := SplitLines(Strip(content));
    var ls := NonBlank(lines);
    var out := FilterLines(lines, true);
    FilterLinesAt(lines, true);
    forall j | 0 <= j < |out|
      ensures out[j] != [] && NoNewline(out[j])
    {
      var m :| 0 <= m < |lines| && lines[m] == ls[j];
      RenderLine(ls[j], PState(ls[..j], true));
    }
    SplitJoinLines(out);
  }

  /** A non-blank line without a line break renders as a non-empty line
      without a line break. */
  lemma RenderLine(line: string, pOn: bool)
    requires !IsBlank(line) && NoNewline(line)
    ensures Render(line, pOn) != [] && NoNewline(Render(line, pOn))
  {
    if !(IsTagLine(line) || !pOn) {
      var w := Strip(line);
      StripShape(line);
      forall i | 0 <= i < |w|
        ensures w[i] != '\n'
      {
        assert w[i] in line;
      }
      NoNewlineAppend("<p>", w);
      NoNewlineAppend("<p>" + w, "</p>");
    }
  }

  lemma NoNewlineAppend(a: string, b: string)
    requires NoNewline(a) && NoNewline(b)
    ensures NoNewline(a + b)
  {
  }

  /** Inside a `<pre>` block nothing is wrapped: after a tag-shaped line
      that opens `<pre>` without closing it, every line up to the next
      tag-shaped one is emitted exactly as written. */
  lemma PreBlockVerbatim(content: string, open: nat, k: nat)
    requires var ls := NonBlank(SplitLines(Strip(content)));
             && open < k < |ls|
             && IsTagLine(ls[open]) && Contains(ls[open], "<pre>") && !Contains(ls[open], "</pre>")
             && forall m :: open < m < k ==> !IsTagLine(ls[m])
    ensures FilterLines(SplitLines(Strip(content)), true)[k] == NonBlank(SplitLines(Strip(content)))[k]
  {
    var lines := SplitLines(Strip(content));
    FilterLinesAt(lines, true);
    PreBlockOff(NonBlank(lines), open, k, true);
  }

  /** The flag is off on every line after an opening `<pre>` line up to the
      next tag-shaped line. */
  lemma PreBlockOff(ls: seq<string>, open: nat, k: nat, pOn: bool)
    requires open < k <= |ls|
    requires IsTagLine(ls[open]) && Contains(ls[open], "<pre>") && !Contains(ls[open], "</pre>")
    requires forall m :: open < m < k ==> !IsTagLine(ls[m])
    ensures !PState(ls[..k], pOn)
  {
    var before := PState(ls[..open], pOn);
    PrefixSplit(ls, open + 1, k);
    PrefixSplit(ls, open, open + 1);
    assert ls[open..open + 1] == [ls[open]];
    PStateAppend(ls[..open + 1], ls[open + 1..k], pOn);
    PStateAppend(ls[..open], [ls[open]], pOn);
    assert PState([ls[open]], before) == PAfter(ls[open], before);
    PStateNoTags(ls[open + 1..k], false);
  }

  lemma PrefixSplit<T>(s: seq<T>, i: nat, j: nat)
    requires i <= j <= |s|
    ensures s[..j] == s[..i] + s[i..j]
  {
  }
}
