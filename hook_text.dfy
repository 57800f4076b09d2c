/**
 * `normalizeHook`: the canonical, comparable form of a hook script read from
 * a file. It strips one leading byte-order mark, turns CRLF into LF, drops the
 * blank lines and the `#` comment lines, joins what is left with single
 * spaces (so the result fits on one shell command line), trims it and
 * collapses every whitespace run to one space.
 */
module HookText {
  import opened Seqs
  import opened JsText

  const Bom: char := '\U{FEFF}'

  /** `replace(/^\uFEFF/, '')`: at most one leading byte-order mark goes. */
  function StripBom(s: string): (r: string)
    ensures s != [] && s[0] == Bom ==> r == s[1..]
    ensures s == [] || s[0] != Bom ==> r == s
  {
    if s != [] && s[0] == Bom then s[1..] else s
  }

  /** A line that is dropped: blank, or a comment once leading whitespace is ignored. */
  predicate BlankOrComment(line: string) {
    var t := Trim(line);
    t == [] || t[0] == '#'
  }

  /** `filter(line => !line.trim().startsWith('#') && line.trim() !== '')`, order kept. */
  function Kept(lines: seq<string>): (r: seq<string>)
    ensures |r| <= |lines|
  {
    if lines == [] then []
    else (if BlankOrComment(lines[0]) then [] else [lines[0]]) + Kept(lines[1..])
  }

  /** The kept lines are exactly the input lines that are neither blank nor comments. */
  lemma KeptMembers(lines: seq<string>)
    ensures forall i :: 0 <= i < |Kept(lines)| ==> !BlankOrComment(Kept(lines)[i])
    ensures forall l :: l in Kept(lines) ==> l in lines
    ensures forall l :: l in lines && !BlankOrComment(l) ==> l in Kept(lines)
  {
    KeptSound(lines);
    KeptFrom(lines);
    KeptComplete(lines);
  }

  lemma {:induction false} KeptSound(lines: seq<string>)
    ensures forall i :: 0 <= i < |Kept(lines)| ==> !BlankOrComment(Kept(lines)[i])
  {
    if lines != [] {
      KeptSound(lines[1..]);
    }
  }

  lemma {:induction false} KeptFrom(lines: seq<string>)
    ensures forall l :: l in Kept(lines) ==> l in lines
  {
    if lines != [] {
      KeptFrom(lines[1..]);
      assert forall l :: l in lines[1..] ==> l in lines;
    }
  }

  lemma {:induction false} KeptComplete(lines: seq<string>)
    ensures forall l :: l in lines && !BlankOrComment(l) ==> l in Kept(lines)
  {
    if lines != [] {
      KeptComplete(lines[1..]);
      assert forall l :: l in lines ==> l == lines[0] || l in lines[1..];
    }
  }

  lemma {:induction false} KeptAppend(a: seq<string>, b: seq<string>)
    ensures Kept(a + b) == Kept(a) + Kept(b)
  {
    if a != [] {
      KeptAppend(a[1..], b);
      KeptAppendStep(a, b);
    } else {
      AppendEmpty(b);
    }
  }

  lemma KeptAppendStep(a: seq<string>, b: seq<string>)
    requires a != [] && Kept(a[1..] + b) == Kept(a[1..]) + Kept(b)
    ensures Kept(a + b) == Kept(a) + Kept(b)
  {
    var head := if BlankOrComment(a[0]) then [] else [a[0]];
    TailOfAppend(a, b);
    AppendAssoc(head, Kept(a[1..]), Kept(b));
  }

  /** The lines of a file, as `split('\n')` sees them after the BOM and CRLF steps. */
  function SourceLines(s: string): seq<string> {
    Lines(ReplaceCrlf(StripBom(s)))
  }

  /** Join the surviving lines with spaces, trim, collapse whitespace runs. */
  function NormalizeLines(lines: seq<string>): string {
    Collapse(Trim(JoinWith(Kept(lines), ' ')))
  }

  /** `normalizeHook(s)`. */
  function Normalize(s: string): (r: string)
    ensures Canonical(r)
    ensures r == [] || r[0] != '#'
    ensures r == [] <==> forall i :: 0 <= i < |SourceLines(s)| ==> BlankOrComment(SourceLines(s)[i])
  {
    NormalizeLinesShape(SourceLines(s));
    NormalizeLines(SourceLines(s))
  }

  lemma NormalizeLinesShape(lines: seq<string>)
    ensures Canonical(NormalizeLines(lines))
    ensures NormalizeLines(lines) == [] || NormalizeLines(lines)[0] != '#'
    ensures NormalizeLines(lines) == [] <==> forall i :: 0 <= i < |lines| ==> BlankOrComment(lines[i])
  {
    var kept := Kept(lines);
    var trimmed := Trim(JoinWith(kept, ' '));
    CollapseTrimmed(trimmed);
    KeptMembers(lines);
    if kept == [] {
      forall i | 0 <= i < |lines| ensures BlankOrComment(lines[i]) {
        assert lines[i] in lines;
      }
    } else {
      JoinedHead(kept);
      assert kept[0] in lines;
    }
  }

  /**
   * What `normalizeHook` returns: the words of the lines that are neither blank
   * nor comments, in order, separated by single spaces; splitting the result
   * at whitespace gives exactly those words back.
   */
  lemma NormalizeWords(s: string)
    ensures Normalize(s) == JoinWith(LineWords(Kept(SourceLines(s))), ' ')
    ensures Words(Normalize(s)) == LineWords(Kept(SourceLines(s)))
  {
    var kept := Kept(SourceLines(s));
    CollapseTrimWords(JoinWith(kept, ' '));
    WordsOfJoinedLines(kept);
    LineWordsAreWords(kept);
    WordsOfJoin(LineWords(kept));
  }

  /** Collapsing whitespace in a trimmed string yields a canonical one. */
  lemma CollapseTrimmed(t: string)
    requires Trimmed(t)
    ensures Canonical(Collapse(t))
    ensures t != [] ==> Collapse(t) != [] && Collapse(t)[0] == t[0]
  {
  }

  /** Once trimmed, the joined lines start with the first kept line's first visible character. */
  lemma JoinedHead(kept: seq<string>)
    requires kept != [] && !BlankOrComment(kept[0])
    ensures var t := Trim(JoinWith(kept, ' ')); t != [] && t[0] != '#'
  {
    var head := kept[0];
    var j := JoinWith(kept, ' ');
    PrefixSplit(head, j);
    TrimFront(head);
    TrimHead(head, j[|head|..]);
  }

  /**
   * Normalizing twice gives what normalizing once gives: a normalized hook has
   * no BOM, no line break and no comment in front, and is already trimmed and
   * single-spaced.
   */
  lemma NormalizeIdempotent(s: string)
    ensures Normalize(Normalize(s)) == Normalize(s)
  {
    var t := Normalize(s);
    CanonicalHasNoBreaks(t);
    assert StripBom(t) == t by {
      assert t == [] || !IsSpace(t[0]);
    }
    ReplaceCrlfWithoutCr(t);
    assert SourceLines(t) == [t];
    if t == [] {
      assert Kept([t]) == [];
    } else {
      assert Trim(t) == t;
      assert !BlankOrComment(t);
      assert Kept([t]) == [t];
      assert JoinWith([t], ' ') == t;
      CollapseSingleSpaced(t);
    }
  }

  /** A blank or comment line contributes nothing, wherever it stands. */
  lemma DroppedLineIrrelevant(before: seq<string>, line: string, after: seq<string>)
    requires BlankOrComment(line)
    ensures NormalizeLines(before + [line] + after) == NormalizeLines(before + after)
  {
    var kb := Kept(before);
    assert Kept([line]) == [] by {
      assert [line][1..] == [];
    }
    KeptAppend(before, [line]);
    assert Kept(before + [line]) == kb + [] == kb;
    KeptAppend(before + [line], after);
    KeptAppend(before, after);
    assert Kept(before + [line] + after) == Kept(before + after);
  }

  /** The lines a text splits into, given the pieces it was joined from. */
  lemma SourceLinesOf(s: string, lines: seq<string>)
    requires |lines| >= 1
    requires forall i :: 0 <= i < |lines| ==> '\n' !in lines[i]
    requires ReplaceCrlf(StripBom(s)) == JoinWith(lines, '\n')
    ensures SourceLines(s) == lines
  {
    LinesOfJoin(lines);
  }

  /** Example: comments and blank lines vanish, the other lines join with a space. */
  lemma CommentAndBlankExample()
    ensures Normalize("# comment\n\nfoo\nbar") == "foo bar"
  {
    CommentAndBlankLines();
    CommentAndBlankKept();
    FooBarJoined();
  }

  /** Example: a BOM and CRLF line endings are absorbed. */
  lemma BomAndCrlfExample()
    ensures Normalize("\U{FEFF}foo\r\nbar\r\n") == "foo bar"
  {
    BomAndCrlfLines();
    BomAndCrlfKept();
    FooBarJoined();
  }

  /** Example: a carriage return without a line feed is whitespace inside a line, not a line break. */
  lemma LoneCrExample()
    ensures Normalize("foo\r# x") == "foo # x"
  {
    LoneCrLines();
    LoneCrKept();
    LoneCrTrimmed();
    CollapseFooCrX();
  }

  lemma LoneCrLines()
    ensures SourceLines("foo\r# x") == ["foo\r# x"]
  {
    assert "foo" + "\r" + "# x" == "foo\r# x";
    OneCrLine("foo", "# x");
  }

  lemma LoneCrTrimmed()
    ensures Trimmed("foo\r# x")
  {
    var line := "foo\r# x";
    assert line[0] == 'f' && line[|line| - 1] == 'x';
  }

  lemma LoneCrKept()
    ensures Kept(["foo\r# x"]) == ["foo\r# x"]
  {
    LoneCrTrimmed();
    TrimmedLine("foo\r# x");
    KeptOne("foo\r# x");
  }

  /** Example: a file with carriage returns only is a single line, here a comment, so nothing is left. */
  lemma CrOnlyExample()
    ensures Normalize("# c\rfoo") == ""
  {
    CrOnlyLines();
    CrOnlyDropped();
  }

  lemma CrOnlyLines()
    ensures SourceLines("# c\rfoo") == ["# c\rfoo"]
  {
    assert "# c" + "\r" + "foo" == "# c\rfoo";
    OneCrLine("# c", "foo");
  }

  lemma CrOnlyDropped()
    ensures BlankOrComment("# c\rfoo")
  {
    var line := "# c\rfoo";
    assert line[0] == '#' && line[|line| - 1] == 'o';
    TrimmedLine(line);
  }

  /** Two pieces joined by a lone carriage return stay one line. */
  lemma OneCrLine(a: string, b: string)
    requires a != [] && a[0] != Bom
    requires '\r' !in a && '\r' !in b && '\n' !in a && '\n' !in b
    requires b == [] || b[0] != '\n'
    ensures SourceLines(a + "\r" + b) == [a + "\r" + b]
  {
    var s := a + "\r" + b;
    assert s[0] == a[0];
    assert s == a + ("\r" + b);
    LoneCrAfter(a, b);
    ReplaceCrlfWithoutCr(b);
    assert '\n' !in "\r";
  }

  lemma CollapseFooCrX()
    ensures Collapse("foo\r# x") == "foo # x"
  {
    FooCrXParts();
    CollapseWordSpace("foo", '\r', "# x");
    CollapseHashX();
  }

  lemma FooCrXParts()
    ensures "foo" + (['\r'] + "# x") == "foo\r# x"
    ensures "foo" + ([' '] + "# x") == "foo # x"
  {
  }

  lemma CollapseHashX()
    ensures Collapse("# x") == "# x"
  {
    assert Collapse([]) == [];
    CollapseKeep('x', []);
    assert "#" + ([' '] + "x") == "# x";
    CollapseWordSpace("#", ' ', "x");
  }

  lemma CommentAndBlankLines()
    ensures SourceLines("# comment\n\nfoo\nbar") == ["# comment", "", "foo", "bar"]
  {
    assert "# comment\n\nfoo\nbar" == "# comment" + "\n" + "" + "\n" + "foo" + "\n" + "bar";
    PlainLines("# comment", "", "foo", "bar");
  }

  /** Four lines without line breaks, the first not starting with a BOM, joined by LF split back apart. */
  lemma PlainLines(a: string, b: string, c: string, d: string)
    requires a != [] && a[0] != Bom
    requires '\n' !in a && '\n' !in b && '\n' !in c && '\n' !in d
    requires '\r' !in a && '\r' !in b && '\r' !in c && '\r' !in d
    ensures SourceLines(a + "\n" + b + "\n" + c + "\n" + d) == [a, b, c, d]
  {
    var s := a + "\n" + b + "\n" + c + "\n" + d;
    JoinFour(a, b, c, d, '\n');
    assert s[0] == a[0];
    ReplaceCrlfWithoutCr(s);
    var lines := [a, b, c, d];
    assert forall i :: 0 <= i < |lines| ==> '\n' !in lines[i] by {
      assert lines[0] == a && lines[1] == b && lines[2] == c && lines[3] == d;
    }
    SourceLinesOf(s, lines);
  }

  lemma JoinFour(a: string, b: string, c: string, d: string, sep: char)
    ensures JoinWith([a, b, c, d], sep) == a + [sep] + b + [sep] + c + [sep] + d
  {
    JoinCons(c, [d], sep);
    JoinCons(b, [c, d], sep);
    JoinCons(a, [b, c, d], sep);
  }

  lemma JoinThree(a: string, b: string, c: string, sep: char)
    ensures JoinWith([a, b, c], sep) == a + [sep] + b + [sep] + c
  {
    JoinCons(b, [c], sep);
    JoinCons(a, [b, c], sep);
  }

  /** A line with no whitespace at either end is dropped exactly when it starts with `#`. */
  lemma TrimmedLine(s: string)
    requires s != [] && Trimmed(s)
    ensures BlankOrComment(s) <==> s[0] == '#'
  {
  }

  /** The filter looks at the first line, then at the rest. */
  lemma KeptCons(line: string, rest: seq<string>)
    ensures Kept([line] + rest) == (if BlankOrComment(line) then [] else [line]) + Kept(rest)
  {
    TailOfCons(line, rest);
  }

  lemma KeptOne(line: string)
    ensures Kept([line]) == if BlankOrComment(line) then [] else [line]
  {
    assert [line][1..] == [];
  }

  lemma KeptFour(a: string, b: string, c: string, d: string)
    requires BlankOrComment(a) && BlankOrComment(b) && !BlankOrComment(c) && !BlankOrComment(d)
    ensures Kept([a, b, c, d]) == [c, d]
  {
    KeptOne(d);
    KeptCons(c, [d]);
    KeptCons(b, [c, d]);
    KeptCons(a, [b, c, d]);
  }

  lemma KeptThree(a: string, b: string, c: string)
    requires !BlankOrComment(a) && !BlankOrComment(b) && BlankOrComment(c)
    ensures Kept([a, b, c]) == [a, b]
  {
    KeptOne(c);
    KeptCons(b, [c]);
    KeptCons(a, [b, c]);
  }

  lemma CommentAndBlankKept()
    ensures Kept(["# comment", "", "foo", "bar"]) == ["foo", "bar"]
  {
    CommentDropped();
    FooBarKept();
    KeptFour("# comment", "", "foo", "bar");
  }

  lemma CommentDropped()
    ensures BlankOrComment("# comment") && BlankOrComment("")
  {
    assert Trimmed("# comment");
    TrimmedLine("# comment");
  }

  lemma FooBarKept()
    ensures !BlankOrComment("foo") && !BlankOrComment("bar")
  {
    assert Trimmed("foo") && Trimmed("bar");
    TrimmedLine("foo");
    TrimmedLine("bar");
  }

  lemma BomAndCrlfLines()
    ensures SourceLines("\U{FEFF}foo\r\nbar\r\n") == ["foo", "bar", ""]
  {
    assert "\U{FEFF}foo\r\nbar\r\n" == [Bom] + ("foo" + "\r\n" + ("bar" + "\r\n"));
    CrlfLines("foo", "bar");
  }

  /** A BOM and two CRLF-terminated lines split into the two lines and an empty last piece. */
  lemma CrlfLines(a: string, b: string)
    requires '\n' !in a && '\n' !in b && '\r' !in a && '\r' !in b
    ensures SourceLines([Bom] + (a + "\r\n" + (b + "\r\n"))) == [a, b, ""]
  {
    var t := a + "\r\n" + (b + "\r\n");
    assert ([Bom] + t)[1..] == t;
    CrlfWords(a, b);
    JoinThree(a, b, "", '\n');
    assert a + "\n" + (b + "\n") == a + ['\n'] + b + ['\n'] + [];
    var lines := [a, b, ""];
    assert forall i :: 0 <= i < |lines| ==> '\n' !in lines[i] by {
      assert lines[0] == a && lines[1] == b && lines[2] == [];
    }
    SourceLinesOf([Bom] + t, lines);
  }

  /** Two CRLF-terminated lines become two LF-terminated lines. */
  lemma CrlfWords(a: string, b: string)
    requires '\r' !in a && '\r' !in b
    ensures ReplaceCrlf(a + "\r\n" + (b + "\r\n")) == a + "\n" + (b + "\n")
  {
    CrlfLine(b);
    CrlfAfter(a, b + "\r\n");
    AppendAssoc(a, "\r\n", b + "\r\n");
    AppendAssoc(a, "\n", b + "\n");
  }

  /** One CRLF-terminated line becomes an LF-terminated line. */
  lemma CrlfLine(b: string)
    requires '\r' !in b
    ensures ReplaceCrlf(b + "\r\n") == b + "\n"
  {
    CrlfAfter(b, []);
    AppendEmpty("\r\n");
    AppendEmpty("\n");
  }

  lemma BomAndCrlfKept()
    ensures Kept(["foo", "bar", ""]) == ["foo", "bar"]
  {
    FooBarKept();
    assert BlankOrComment("");
    KeptThree("foo", "bar", "");
  }

  lemma FooBarJoined()
    ensures Collapse(Trim(JoinWith(["foo", "bar"], ' '))) == "foo bar"
  {
    JoinCons("foo", ["bar"], ' ');
    assert "foo" + [' '] + "bar" == "foo bar";
    FooBarCanonical();
    CollapseSingleSpaced("foo bar");
  }

  lemma FooBarCanonical()
    ensures Canonical("foo bar")
  {
    var s := "foo bar";
    assert s[1..] == "oo bar" && s[2..] == "o bar" && s[3..] == " bar";
    assert s[4..] == "bar" && s[5..] == "ar" && s[6..] == "r";
  }
}
