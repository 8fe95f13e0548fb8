/** String helpers shared by the blog model: Python's `lower`, `strip`,
    `splitlines`, `in` and `" ".join`, restricted to ASCII, and the slug
    computed by `make_nicename`. */
module Text {

  // ---------------------------------------------------------------------
  // Character classes

  /** Python's `\s` / `str.isspace` on ASCII: space, \t \n \v \f \r and the
      four separators \x1c-\x1f. */
  predicate IsSpace(c: char) {
    c == ' ' || c == '\t' || c == '\n' || c == '\r' || c == '\U{0B}' || c == '\U{0C}'
    || ('\U{1C}' <= c <= '\U{1F}')
  }

  /** Python's `\w` on ASCII: letters, digits and underscore. */
  predicate IsWordChar(c: char) {
    ('a' <= c <= 'z') || ('A' <= c <= 'Z') || ('0' <= c <= '9') || c == '_'
  }

  function LowerChar(c: char): char {
    if 'A' <= c <= 'Z' then (c as int + 32) as char else c
  }

  /** `str.lower` on ASCII letters. */
  function Lower(s: string): (r: string)
    ensures |r| == |s|
    ensures forall i :: 0 <= i < |s| ==> r[i] == LowerChar(s[i])
  {
    seq(|s|, i requires 0 <= i < |s| => LowerChar(s[i]))
  }

  // ---------------------------------------------------------------------
  // strip

  function StripLeft(s: string): (r: string)
    ensures |r| <= |s|
  {
    if s != [] && IsSpace(s[0]) then StripLeft(s[1..]) else s
  }

  function StripRight(s: string): (r: string)
    ensures |r| <= |s|
  {
    if s != [] && IsSpace(s[|s| - 1]) then StripRight(s[..|s| - 1]) else s
  }

  /** `str.strip()`: drop leading and trailing whitespace. */
  function Strip(s: string): (r: string)
    ensures |r| <= |s|
  {
    StripRight(StripLeft(s))
  }

  /** `StripLeft` removes exactly the leading whitespace run: what is left
      is a suffix that does not start with whitespace. */
  lemma {:induction false} StripLeftShape(s: string)
    ensures var r := StripLeft(s);
            && r == s[|s| - |r|..]
            && (r == [] || !IsSpace(r[0]))
            && forall i :: 0 <= i < |s| - |r| ==> IsSpace(s[i])
  {
    if s != [] && IsSpace(s[0]) {
      StripLeftShape(s[1..]);
    }
  }

  /** `StripRight` removes exactly the trailing whitespace run. */
  lemma {:induction false} StripRightShape(s: string)
    ensures var r := StripRight(s);
            && r == s[..|r|]
            && (r == [] || !IsSpace(r[|r| - 1]))
            && forall i :: |r| <= i < |s| ==> IsSpace(s[i])
  {
    if s != [] && IsSpace(s[|s| - 1]) {
      StripRightShape(s[..|s| - 1]);
    }
  }

  /** The stripped string is a slice of the input that neither starts nor
      ends with whitespace. */
  lemma StripShape(s: string)
    ensures forall c :: c in Strip(s) ==> c in s
    ensures Strip(s) != [] ==> !IsSpace(Strip(s)[0]) && !IsSpace(Strip(s)[|Strip(s)| - 1])
  {
    var l := StripLeft(s);
    var r := StripRight(l);
    StripLeftShape(s);
    StripRightShape(l);
    assert r != [] ==> r[0] == l[0];
    forall c | c in r
      ensures c in s
    {
      var i :| 0 <= i < |r| && r[i] == c;
      assert l[i] == c;
      assert s[|s| - |l| + i] == c;
    }
  }

  predicate AllSpace(s: string) {
    forall i :: 0 <= i < |s| ==> IsSpace(s[i])
  }

  /** A string strips to nothing exactly when it is all whitespace. */
  lemma StripEmpty(s: string)
    ensures Strip(s) == [] <==> AllSpace(s)
  {
    var l := StripLeft(s);
    StripLeftShape(s);
    StripRightShape(l);
    if l != [] {
      assert l[0] == s[|s| - |l|];
    }
  }

  // ---------------------------------------------------------------------
  // make_nicename

  /** `re.sub(r'[^\w\s]', '', s)`: delete every character that is neither a
      word character nor whitespace. */
  function DropPunctuation(s: string): string {
    if s == [] then []
    else (if IsWordChar(s[0]) || IsSpace(s[0]) then [s[0]] else []) + DropPunctuation(s[1..])
  }

  /** The rest of `s` after its leading whitespace run. */
  function SkipSpaces(s: string): (r: string)
    ensures |r| <= |s| && r == s[|s| - |r|..]
    ensures r == [] || !IsSpace(r[0])
  {
    if s != [] && IsSpace(s[0]) then SkipSpaces(s[1..]) else s
  }

  /** `re.sub(r'\s+', '-', s)`: every maximal whitespace run becomes one `-`. */
  function DashSpaces(s: string): string
    decreases |s|
  {
    if s == [] then []
    else if IsSpace(s[0]) then "-" + DashSpaces(SkipSpaces(s[1..]))
    else [s[0]] + DashSpaces(s[1..])
  }

  /** `Post.make_nicename`: lower-case and strip, drop punctuation, then
      turn whitespace runs into dashes. */
  function Slug(title: string): string {
    DashSpaces(DropPunctuation(Strip(Lower(title))))
  }

  predicate WordsAndDashes(s: string) {
    forall i :: 0 <= i < |s| ==> IsWordChar(s[i]) || s[i] == '-'
  }

  predicate NoDoubleDash(s: string) {
    forall i :: 0 <= i < |s| - 1 ==> !(s[i] == '-' && s[i + 1] == '-')
  }

  predicate WordsAndSpaces(s: string) {
    forall i :: 0 <= i < |s| ==> IsWordChar(s[i]) || IsSpace(s[i])
  }

  lemma {:induction false} DropPunctuationShape(s: string)
    ensures WordsAndSpaces(DropPunctuation(s))
  {
    if s != [] {
      DropPunctuationShape(s[1..]);
    }
  }

  lemma {:induction false} DashSpacesShape(s: string)
    requires WordsAndSpaces(s)
    ensures WordsAndDashes(DashSpaces(s)) && NoDoubleDash(DashSpaces(s))
    ensures s != [] && !IsSpace(s[0]) ==> DashSpaces(s) != [] && DashSpaces(s)[0] != '-'
    decreases |s|
  {
    if s == [] {
    } else if IsSpace(s[0]) {
      var rest := SkipSpaces(s[1..]);
      assert forall i :: 0 <= i < |rest| ==> rest[i] == s[1..][|s[1..]| - |rest| + i];
      DashSpacesShape(rest);
      var d := DashSpaces(rest);
      assert DashSpaces(s) == "-" + d;
      assert rest != [] ==> !IsSpace(rest[0]);
    } else {
      DashSpacesShape(s[1..]);
      assert DashSpaces(s) == [s[0]] + DashSpaces(s[1..]);
    }
  }

  /** The slug holds only word characters and dashes, so no whitespace, and
      never two dashes in a row. */
  lemma SlugShape(title: string)
    ensures WordsAndDashes(Slug(title))
    ensures NoDoubleDash(Slug(title))
    ensures forall i :: 0 <= i < |Slug(title)| ==> !IsSpace(Slug(title)[i])
  {
    var t := DropPunctuation(Strip(Lower(title)));
    DropPunctuationShape(Strip(Lower(title)));
    DashSpacesShape(t);
    WordsAndDashesNoSpace(DashSpaces(t));
  }

  lemma WordsAndDashesNoSpace(s: string)
    requires WordsAndDashes(s)
    ensures forall i :: 0 <= i < |s| ==> !IsSpace(s[i])
  {
    forall i | 0 <= i < |s|
      ensures !IsSpace(s[i])
    {
      assert IsWordChar(s[i]) || s[i] == '-';
    }
  }

  /** The word characters of `s`, in order. */
  function WordChars(s: string): string {
    if s == [] then [] else (if IsWordChar(s[0]) then [s[0]] else []) + WordChars(s[1..])
  }

  /** `s` with every dash deleted. */
  function Undash(s: string): string {
    if s == [] then [] else (if s[0] == '-' then [] else [s[0]]) + Undash(s[1..])
  }

  /** `s` with every whitespace character deleted. */
  function Unspace(s: string): string {
    if s == [] then [] else (if IsSpace(s[0]) then [] else [s[0]]) + Unspace(s[1..])
  }

  lemma {:induction false} WordCharsAppend(a: string, b: string)
    ensures WordChars(a + b) == WordChars(a) + WordChars(b)
  {
    if a != [] {
      assert (a + b)[0] == a[0];
      assert (a + b)[1..] == a[1..] + b;
      WordCharsAppend(a[1..], b);
      assert WordChars(a + b) == (if IsWordChar(a[0]) then [a[0]] else []) + WordChars(a[1..] + b);
      assert WordChars(a) == (if IsWordChar(a[0]) then [a[0]] else []) + WordChars(a[1..]);
    } else {
      assert a + b == b;
    }
  }

  lemma {:induction false} WordCharsAllSpace(s: string)
    requires AllSpace(s)
    ensures WordChars(s) == []
  {
    if s != [] { WordCharsAllSpace(s[1..]); }
  }

  lemma {:induction false} WordCharsStripLeft(s: string)
    ensures WordChars(StripLeft(s)) == WordChars(s)
  {
    if s != [] && IsSpace(s[0]) { WordCharsStripLeft(s[1..]); }
  }

  lemma {:induction false} WordCharsStripRight(s: string)
    ensures WordChars(StripRight(s)) == WordChars(s)
  {
    if s != [] && IsSpace(s[|s| - 1]) {
      var init := s[..|s| - 1];
      WordCharsStripRight(init);
      assert s == init + [s[|s| - 1]];
      WordCharsAppend(init, [s[|s| - 1]]);
    }
  }

  /** Stripping removes only whitespace, so it keeps every word character. */
  lemma WordCharsStrip(s: string)
    ensures WordChars(Strip(s)) == WordChars(s)
  {
    WordCharsStripLeft(s);
    WordCharsStripRight(StripLeft(s));
  }

  lemma {:induction false} UnspaceDropPunctuation(s: string)
    ensures Unspace(DropPunctuation(s)) == WordChars(s)
  {
    if s != [] {
      UnspaceDropPunctuation(s[1..]);
      var head := if IsWordChar(s[0]) || IsSpace(s[0]) then [s[0]] else [];
      assert DropPunctuation(s) == head + DropPunctuation(s[1..]);
      UnspaceAppend(head, DropPunctuation(s[1..]));
    }
  }

  lemma {:induction false} UnspaceAppend(a: string, b: string)
    ensures Unspace(a + b) == Unspace(a) + Unspace(b)
  {
    if a != [] {
      assert (a + b)[0] == a[0];
      assert (a + b)[1..] == a[1..] + b;
      UnspaceAppend(a[1..], b);
      assert Unspace(a + b) == (if IsSpace(a[0]) then [] else [a[0]]) + Unspace(a[1..] + b);
      assert Unspace(a) == (if IsSpace(a[0]) then [] else [a[0]]) + Unspace(a[1..]);
    } else {
      assert a + b == b;
    }
  }

  lemma {:induction false} UndashDashSpaces(s: string)
    requires WordsAndSpaces(s)
    ensures Undash(DashSpaces(s)) == Unspace(s)
    decreases |s|
  {
    if s == [] {
    } else if IsSpace(s[0]) {
      var rest := SkipSpaces(s[1..]);
      SkipSpacesUnspace(s[1..]);
      UndashDashSpaces(rest);
      assert DashSpaces(s) == "-" + DashSpaces(rest);
      assert Undash("-" + DashSpaces(rest)) == Undash(DashSpaces(rest));
    } else {
      UndashDashSpaces(s[1..]);
      assert DashSpaces(s) == [s[0]] + DashSpaces(s[1..]);
      assert s[0] != '-';
      assert Undash([s[0]] + DashSpaces(s[1..])) == [s[0]] + Undash(DashSpaces(s[1..]));
    }
  }

  /** Skipping leading whitespace deletes no word character and keeps a
      words-and-spaces text one. */
  lemma {:induction false} SkipSpacesUnspace(s: string)
    requires WordsAndSpaces(s)
    ensures Unspace(SkipSpaces(s)) == Unspace(s)
    ensures WordsAndSpaces(SkipSpaces(s))
  {
    if s != [] && IsSpace(s[0]) {
      SkipSpacesUnspace(s[1..]);
    }
  }

  /** Deleting the dashes of a slug gives back exactly the (lower-cased) word
      characters of the title, in order: no word character is lost and
      nothing else survives. */
  lemma SlugContent(title: string)
    ensures Undash(Slug(title)) == WordChars(Lower(title))
  {
    var t := Strip(Lower(title));
    DropPunctuationShape(t);
    UndashDashSpaces(DropPunctuation(t));
    UnspaceDropPunctuation(t);
    WordCharsStrip(Lower(title));
  }

  predicate NoSpace(s: string) {
    forall i :: 0 <= i < |s| ==> !IsSpace(s[i])
  }

  lemma {:induction false} DropPunctuationKeeps(s: string)
    requires WordsAndSpaces(s)
    ensures DropPunctuation(s) == s
  {
    if s != [] { DropPunctuationKeeps(s[1..]); }
  }

  lemma {:induction false} DashSpacesWord(w: string, t: string)
    requires NoSpace(w)
    ensures DashSpaces(w + t) == w + DashSpaces(t)
  {
    if w != [] {
      assert (w + t)[0] == w[0];
      assert (w + t)[1..] == w[1..] + t;
      DashSpacesWord(w[1..], t);
      assert DashSpaces(w + t) == [w[0]] + DashSpaces(w[1..] + t);
    } else {
      assert w + t == t;
    }
  }

  lemma {:induction false} DashSpacesTwoWords(w: string, t: string)
    requires NoSpace(w) && NoSpace(t) && t != []
    ensures DashSpaces(w + " " + t) == w + "-" + t
  {
    assert SkipSpaces(t) == t;
    DashSpacesWord(t, "");
    assert t + "" == t;
    assert w + " " + t == w + (" " + t);
    DashSpacesWord(w, " " + t);
  }

  predicate IsWord(w: string) {
    w != [] && forall i :: 0 <= i < |w| ==> IsWordChar(w[i])
  }

  lemma LowerAppend(a: string, b: string)
    ensures Lower(a + b) == Lower(a) + Lower(b)
  {
  }

  lemma LowerWord(w: string)
    requires IsWord(w)
    ensures IsWord(Lower(w)) && Lower(Lower(w)) == Lower(w)
  {
  }

  /** Strip leaves alone a string that starts and ends with a non-space. */
  lemma StripKeeps(s: string)
    requires s != [] && !IsSpace(s[0]) && !IsSpace(s[|s| - 1])
    ensures Strip(s) == s
  {
  }

  lemma LowerJoin(w: string, c: char, t: string)
    requires !('A' <= c <= 'Z')
    ensures Lower(w + [c] + t) == Lower(w) + [c] + Lower(t)
  {
    LowerAppend(w + [c], t);
    LowerAppend(w, [c]);
  }

  lemma WordsNoSpace(w: string, t: string)
    requires IsWord(w) && IsWord(t)
    ensures NoSpace(w) && NoSpace(t) && NoSpace(w + t) && WordsAndSpaces(w + [' '] + t)
  {
  }

  /** Two words separated by a space: the slug is both words lower-cased and
      joined by one dash (so "Test Post" becomes "test-post"). */
  lemma SlugTwoWords(w: string, t: string)
    requires IsWord(w) && IsWord(t)
    ensures Slug(w + " " + t) == Lower(w) + "-" + Lower(t)
  {
    var lw, lt := Lower(w), Lower(t);
    LowerWord(w);
    LowerWord(t);
    LowerJoin(w, ' ', t);
    var low := lw + [' '] + lt;
    StripKeeps(low);
    WordsNoSpace(lw, lt);
    DropPunctuationKeeps(low);
    DashSpacesTwoWords(lw, lt);
  }

  lemma DropPunctuationDash(w: string, t: string)
    requires IsWord(w) && IsWord(t)
    ensures DropPunctuation(w + ['-'] + t) == w + t
  {
    var dt := ['-'] + t;
    assert w + ['-'] + t == w + dt;
    DropPunctuationAppend(w, dt);
    assert dt[0] == '-' && dt[1..] == t;
    assert !(IsWordChar('-') || IsSpace('-'));
    assert DropPunctuation(dt) == DropPunctuation(t);
    WordsNoSpace(w, t);
    DropPunctuationKeeps(w);
    DropPunctuationKeeps(t);
  }

  /** Slugs are not stable under re-application: the dash a first pass
      produces is punctuation to a second pass, so "test-post" slugs to
      "testpost". */
  lemma SlugDeletesDash(w: string, t: string)
    requires IsWord(w) && IsWord(t)
    ensures Slug(Slug(w + " " + t)) == Lower(w) + Lower(t) != Slug(w + " " + t)
  {
    SlugTwoWords(w, t);
    var lw, lt := Lower(w), Lower(t);
    LowerWord(w);
    LowerWord(t);
    var s := lw + ['-'] + lt;
    LowerJoin(lw, '-', lt);
    StripKeeps(s);
    DropPunctuationDash(lw, lt);
    WordsNoSpace(lw, lt);
    DashSpacesWord(lw + lt, "");
    assert lw + lt + "" == lw + lt;
    assert |lw + lt| != |s|;
  }

  lemma {:induction false} DropPunctuationAppend(a: string, b: string)
    ensures DropPunctuation(a + b) == DropPunctuation(a) + DropPunctuation(b)
  {
    if a != [] {
      assert (a + b)[0] == a[0];
      assert (a + b)[1..] == a[1..] + b;
      DropPunctuationAppend(a[1..], b);
      assert DropPunctuation(a + b) == (if IsWordChar(a[0]) || IsSpace(a[0]) then [a[0]] else []) + DropPunctuation(a[1..] + b);
      assert DropPunctuation(a) == (if IsWordChar(a[0]) || IsSpace(a[0]) then [a[0]] else []) + DropPunctuation(a[1..]);
    } else {
      assert a + b == b;
    }
  }

  // ---------------------------------------------------------------------
  // `in`, join, splitlines

  /** Python's `sub in s`. */
  predicate Contains(s: string, sub: string) {
    sub <= s || (s != [] && Contains(s[1..], sub))
  }

  /** `" ".join(words)`. */
  function JoinSpace(words: seq<string>): string {
    if words == [] then ""
    else if |words| == 1 then words[0]
    else words[0] + " " + JoinSpace(words[1..])
  }

  /** `"\n".join(lines)`. */
  function JoinLines(lines: seq<string>): string {
    if lines == [] then ""
    else if |lines| == 1 then lines[0]
    else lines[0] + "\n" + JoinLines(lines[1..])
  }

  predicate NoNewline(s: string) {
    forall i :: 0 <= i < |s| ==> s[i] != '\n'
  }

  /** Index of the first `\n` in `s`, or `|s|` when there is none. */
  function LineEnd(s: string): (k: nat)
    ensures k <= |s|
    ensures NoNewline(s[..k])
    ensures k < |s| ==> s[k] == '\n'
  {
    if s == [] || s[0] == '\n' then 0
    else
      var k := LineEnd(s[1..]);
      assert s[..k + 1] == [s[0]] + s[1..][..k];
      k + 1
  }

  /** `str.splitlines()` with `\n` as the only line break: a final newline
      does not start another line, and the empty string has no lines. */
  function SplitLines(s: string): (lines: seq<string>)
    ensures forall j :: 0 <= j < |lines| ==> NoNewline(lines[j])
    ensures lines == [] <==> s == []
    ensures s != [] ==> lines[0] == s[..LineEnd(s)]
    decreases |s|
  {
    if s == [] then []
    else
      var k := LineEnd(s);
      if k == |s| then assert s[..k] == s; [s] else [s[..k]] + SplitLines(s[k + 1..])
  }

  /** Joining non-empty lines that hold no `\n` and splitting again gives the
      same lines back. */
  lemma {:induction false} SplitJoinLines(lines: seq<string>)
    requires forall j :: 0 <= j < |lines| ==> lines[j] != [] && NoNewline(lines[j])
    ensures SplitLines(JoinLines(lines)) == lines
  {
    if |lines| == 1 {
      LineEndOfLine(lines[0], "");
      assert lines[0] + "" == lines[0];
    } else if |lines| > 1 {
      var rest := JoinLines(lines[1..]);
      SplitJoinLines(lines[1..]);
      var s := lines[0] + "\n" + rest;
      LineEndOfLine(lines[0], "\n" + rest);
      assert s == lines[0] + ("\n" + rest);
      assert s[..|lines[0]|] == lines[0];
      assert s[|lines[0]| + 1..] == rest;
    }
  }

  /** The text less one final `\n`, if it ends in one. */
  function DropFinalBreak(s: string): (r: string)
    ensures s != [] && s[|s| - 1] == '\n' ==> s == r + "\n"
    ensures s == [] || s[|s| - 1] != '\n' ==> r == s
  {
    if s != [] && s[|s| - 1] == '\n' then s[..|s| - 1] else s
  }

  /** Splitting a text into lines and joining them again gives the text
      back, less one final `\n`: `splitlines` keeps every character except
      the line breaks, and only a final break leaves no line behind it. */
  lemma {:induction false} JoinSplitLines(s: string)
    ensures JoinLines(SplitLines(s)) == DropFinalBreak(s)
    decreases |s|
  {
    if s != [] {
      var k := LineEnd(s);
      if k == |s| {
        assert s[..k] == s;
      } else {
        var t := s[k + 1..];
        assert s == s[..k] + "\n" + t;
        JoinSplitLines(t);
        if t != [] {
          JoinLinesCons(s[..k], SplitLines(t));
          DropFinalBreakAfter(s[..k], t);
        }
      }
    }
  }

  lemma JoinLinesCons(line: string, rest: seq<string>)
    requires rest != []
    ensures JoinLines([line] + rest) == line + "\n" + JoinLines(rest)
  {
    assert ([line] + rest)[1..] == rest;
  }

  lemma DropFinalBreakAfter(line: string, t: string)
    requires t != []
    ensures DropFinalBreak(line + "\n" + t) == line + "\n" + DropFinalBreak(t)
  {
    var s := line + "\n" + t;
    assert s[|s| - 1] == t[|t| - 1];
    if t[|t| - 1] == '\n' {
      assert s[..|s| - 1] == line + "\n" + t[..|t| - 1];
    }
  }

  /** The first line of `line + rest` ends where `line` ends. */
  lemma {:induction false} LineEndOfLine(line: string, rest: string)
    requires NoNewline(line)
    requires rest == [] || rest[0] == '\n'
    ensures LineEnd(line + rest) == |line|
  {
    if line != [] {
      assert (line + rest)[1..] == line[1..] + rest;
      LineEndOfLine(line[1..], rest);
    }
  }
}
