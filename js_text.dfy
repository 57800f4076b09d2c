/**
 * The JavaScript string operations the hook code relies on: `trim()`, the
 * regular expressions `/\s+/g` and `/\r\n/g` inside `replace`, `split('\n')`,
 * `join(sep)`, `includes(p)` and `replace(p, '')` with a plain-string pattern.
 * Strings are sequences of Unicode scalar values.
 */
module JsText {
  import opened Wrappers
  import opened Seqs

  /** What `\s` matches and `trim()` removes: ECMAScript WhiteSpace and LineTerminator. */
  predicate IsSpace(c: char) {
    || c == '\t' || c == '\n' || c == '\U{000B}' || c == '\U{000C}' || c == '\r' || c == ' '
    || c == '\U{00A0}' || c == '\U{1680}' || ('\U{2000}' <= c <= '\U{200A}')
    || c == '\U{2028}' || c == '\U{2029}' || c == '\U{202F}' || c == '\U{205F}'
    || c == '\U{3000}' || c == '\U{FEFF}'
  }

  predicate AllSpace(s: string) {
    forall i :: 0 <= i < |s| ==> IsSpace(s[i])
  }

  /** No whitespace at either end. */
  predicate Trimmed(s: string) {
    s == [] || (!IsSpace(s[0]) && !IsSpace(s[|s| - 1]))
  }

  /** Every whitespace character is a plain space and none is followed by another. */
  predicate SingleSpaced(s: string) {
    (forall i :: 0 <= i < |s| && IsSpace(s[i]) ==> s[i] == ' ') && NoDoubleSpace(s)
  }

  /** No two neighbouring whitespace characters. */
  predicate NoDoubleSpace(s: string) {
    |s| < 2 || (!(IsSpace(s[0]) && IsSpace(s[1])) && NoDoubleSpace(s[1..]))
  }

  /** The shape of a normalized hook: trimmed, single-spaced, hence on one line. */
  predicate Canonical(s: string) {
    Trimmed(s) && SingleSpaced(s)
  }

  lemma CanonicalHasNoBreaks(s: string)
    requires Canonical(s)
    ensures '\n' !in s && '\r' !in s
  {
    if '\n' in s {
      var i :| 0 <= i < |s| && s[i] == '\n';
      assert IsSpace(s[i]);
    }
    if '\r' in s {
      var i :| 0 <= i < |s| && s[i] == '\r';
      assert IsSpace(s[i]);
    }
  }

  /** `trimStart()`: drops the leading run of whitespace. */
  function TrimStart(s: string): (r: string)
    ensures |r| <= |s| && r == s[|s| - |r|..]
    ensures forall i :: 0 <= i < |s| - |r| ==> IsSpace(s[i])
    ensures r == [] || !IsSpace(r[0])
  {
    if s != [] && IsSpace(s[0]) then TrimStart(s[1..]) else s
  }

  /** `trimEnd()`: drops the trailing run of whitespace. */
  function TrimEnd(s: string): (r: string)
    ensures |r| <= |s| && r == s[..|r|]
    ensures forall i :: |r| <= i < |s| ==> IsSpace(s[i])
    ensures r == [] || !IsSpace(r[|r| - 1])
  {
    if s != [] && IsSpace(s[|s| - 1]) then TrimEnd(s[..|s| - 1]) else s
  }

  /** `trim()`. */
  function Trim(s: string): (r: string)
    ensures Trimmed(r)
    ensures r == [] <==> AllSpace(s)
    ensures Trimmed(s) ==> r == s
  {
    var t := TrimStart(s);
    assert t != [] ==> s[|s| - |t|] == t[0];
    var r := TrimEnd(t);
    assert r != [] ==> r[0] == t[0];
    r
  }

  lemma {:induction false} TrimStartAppend(a: string, b: string)
    requires TrimStart(a) != []
    ensures TrimStart(a + b) == TrimStart(a) + b
  {
    if IsSpace(a[0]) {
      TrimStartAppend(a[1..], b);
      TrimStartSkip(a, b);
    } else {
      assert (a + b)[0] == a[0];
    }
  }

  /** One leading whitespace character of `a` is skipped in `a + b` as in `a`. */
  lemma TrimStartSkip(a: string, b: string)
    requires a != [] && IsSpace(a[0])
    ensures TrimStart(a + b) == TrimStart(a[1..] + b)
  {
    assert (a + b)[1..] == a[1..] + b;
  }

  /** A non-blank string keeps, after `trim()`, its first non-whitespace character in front. */
  lemma TrimHead(a: string, b: string)
    requires TrimStart(a) != []
    ensures Trim(a + b) != [] && Trim(a + b)[0] == TrimStart(a)[0]
  {
    TrimStartAppend(a, b);
    var t := TrimStart(a + b);
    var r := TrimEnd(t);
    assert r != [] ==> r[0] == t[0];
  }

  /** The first visible character of a string is the first character of its trimmed form. */
  lemma TrimFront(s: string)
    ensures TrimStart(s) != [] ==> Trim(s) != [] && Trim(s)[0] == TrimStart(s)[0]
  {
    var t := TrimStart(s);
    var r := TrimEnd(t);
    assert t != [] ==> r != [] && r[0] == t[0];
  }

  /** `replace(/\s+/g, ' ')`: every maximal run of whitespace becomes one space. */
  function Collapse(s: string): (r: string)
    ensures |r| <= |s|
    ensures SingleSpaced(r)
    ensures r == [] <==> s == []
    ensures s != [] ==> (IsSpace(r[0]) <==> IsSpace(s[0]))
    ensures s != [] && !IsSpace(s[0]) ==> r[0] == s[0]
    ensures s != [] ==> (IsSpace(r[|r| - 1]) <==> IsSpace(s[|s| - 1]))
    decreases |s|
  {
    if s == [] then []
    else if IsSpace(s[0]) then
      var rest := TrimStart(s[1..]);
      LastOfSuffix(s, rest);
      var tail := Collapse(rest);
      SingleSpacedCons(' ', tail);
      ConsEnds(' ', tail);
      [' '] + tail
    else
      var tail := Collapse(s[1..]);
      SingleSpacedCons(s[0], tail);
      ConsEnds(s[0], tail);
      [s[0]] + tail
  }

  /** A non-whitespace character is copied. */
  lemma CollapseKeep(c: char, t: string)
    requires !IsSpace(c)
    ensures Collapse([c] + t) == [c] + Collapse(t)
  {
    assert ([c] + t)[1..] == t;
  }

  /** A single whitespace character before a word becomes one space. */
  lemma CollapseSpaceThenWord(c: char, t: string)
    requires IsSpace(c) && (t == [] || !IsSpace(t[0]))
    ensures Collapse([c] + t) == [' '] + Collapse(t)
  {
    assert ([c] + t)[1..] == t;
    assert TrimStart(t) == t;
  }

  /** A run of non-whitespace is copied, and one whitespace character after it becomes a space. */
  lemma {:induction false} CollapseWordSpace(w: string, c: char, t: string)
    requires forall i :: 0 <= i < |w| ==> !IsSpace(w[i])
    requires IsSpace(c) && (t == [] || !IsSpace(t[0]))
    ensures Collapse(w + ([c] + t)) == w + ([' '] + Collapse(t))
    decreases |w|
  {
    if w == [] {
      CollapseSpaceThenWord(c, t);
      AppendEmpty([c] + t);
      AppendEmpty([' '] + Collapse(t));
    } else {
      CollapseWordSpace(w[1..], c, t);
      CollapseWordSpaceStep(w, c, t);
    }
  }

  lemma CollapseWordSpaceStep(w: string, c: char, t: string)
    requires w != [] && !IsSpace(w[0])
    requires Collapse(w[1..] + ([c] + t)) == w[1..] + ([' '] + Collapse(t))
    ensures Collapse(w + ([c] + t)) == w + ([' '] + Collapse(t))
  {
    HeadThenTail(w, [c] + t);
    CollapseKeep(w[0], w[1..] + ([c] + t));
    HeadThenTail(w, [' '] + Collapse(t));
  }

  /** A non-empty suffix ends where the whole string ends. */
  lemma LastOfSuffix(s: string, t: string)
    requires |t| <= |s| && t == s[|s| - |t|..]
    ensures t != [] ==> t[|t| - 1] == s[|s| - 1]
  {
  }

  /** Putting a character in front keeps a string single-spaced unless it makes a double space. */
  lemma SingleSpacedCons(c: char, t: string)
    requires SingleSpaced(t)
    requires IsSpace(c) ==> c == ' ' && (t == [] || !IsSpace(t[0]))
    ensures SingleSpaced([c] + t)
  {
    var s := [c] + t;
    assert s[1..] == t;
    forall i | 0 <= i < |s| && IsSpace(s[i]) ensures s[i] == ' ' {
      if i > 0 {
        assert s[i] == t[i - 1];
      }
    }
  }

  lemma SingleSpacedTail(s: string)
    requires s != [] && SingleSpaced(s)
    ensures SingleSpaced(s[1..])
  {
    var tail := s[1..];
    forall i | 0 <= i < |tail| && IsSpace(tail[i]) ensures tail[i] == ' ' {
      assert tail[i] == s[i + 1];
    }
  }

  /** A string that is already single-spaced is left alone by `replace(/\s+/g, ' ')`. */
  lemma {:induction false} CollapseSingleSpaced(s: string)
    requires SingleSpaced(s)
    ensures Collapse(s) == s
    decreases |s|
  {
    if s != [] {
      SingleSpacedTail(s);
      CollapseSingleSpaced(s[1..]);
      CollapseKeepsHead(s);
    }
  }

  /** The first character of a single-spaced string survives collapsing in front of its collapsed tail. */
  lemma CollapseKeepsHead(s: string)
    requires s != [] && SingleSpaced(s) && Collapse(s[1..]) == s[1..]
    ensures Collapse(s) == s
  {
    var tail := s[1..];
    if IsSpace(s[0]) {
      assert TrimStart(tail) == tail by {
        assert tail == [] || !IsSpace(tail[0]);
      }
      assert s == [' '] + tail;
    } else {
      assert s == [s[0]] + tail;
    }
  }

  /** The word `s` starts with: its longest prefix free of whitespace. */
  function Word(s: string): (w: string)
    ensures |w| <= |s| && w == s[..|w|]
    ensures forall i :: 0 <= i < |w| ==> !IsSpace(w[i])
    ensures |w| < |s| ==> IsSpace(s[|w|])
  {
    if s == [] || IsSpace(s[0]) then [] else [s[0]] + Word(s[1..])
  }

  /**
   * The words of `s`: its maximal runs of non-whitespace characters, in order.
   * This is what `trim()` followed by `replace(/\s+/g, ' ')` keeps of a string.
   */
  function Words(s: string): seq<string>
    decreases |s|
  {
    var t := TrimStart(s);
    if t == [] then []
    else
      var w := Word(t);
      [w] + Words(t[|w|..])
  }

  /** A word: non-empty and free of whitespace. */
  predicate IsWord(w: string) {
    w != [] && forall i :: 0 <= i < |w| ==> !IsSpace(w[i])
  }

  /** Every piece `Words` returns is a word. */
  lemma {:induction false} WordsAreWords(s: string)
    ensures forall i :: 0 <= i < |Words(s)| ==> IsWord(Words(s)[i])
    decreases |s|
  {
    var t := TrimStart(s);
    if t != [] {
      WordsAreWords(t[|Word(t)|..]);
      WordsAreWordsStep(s);
    }
  }

  lemma WordsAreWordsStep(s: string)
    requires TrimStart(s) != []
    requires var t := TrimStart(s); forall i :: 0 <= i < |Words(t[|Word(t)|..])| ==> IsWord(Words(t[|Word(t)|..])[i])
    ensures forall i :: 0 <= i < |Words(s)| ==> IsWord(Words(s)[i])
  {
    var t := TrimStart(s);
    var w := Word(t);
    var more := Words(t[|w|..]);
    WordsUnfold(s);
    assert IsWord(w) by {
      assert w != [] by {
        assert !IsSpace(t[0]);
      }
    }
    forall i | 0 <= i < |Words(s)| ensures IsWord(Words(s)[i]) {
      if i > 0 {
        assert Words(s)[i] == more[i - 1];
      }
    }
  }

  /** A word is its own first word. */
  lemma WordOfWord(w: string)
    requires IsWord(w)
    ensures Word(w) == w
  {
    WordWhole(w);
  }

  /** Joining words with single spaces and splitting the result into words gives them back. */
  lemma {:induction false} WordsOfJoin(ws: seq<string>)
    requires forall i :: 0 <= i < |ws| ==> IsWord(ws[i])
    ensures Words(JoinWith(ws, ' ')) == ws
  {
    if |ws| == 1 {
      WordsOfOneWord(ws);
    } else if |ws| > 1 {
      AllWordsTail(ws);
      WordsOfJoin(ws[1..]);
      WordsOfJoinStep(ws);
    }
  }

  lemma WordsOfOneWord(ws: seq<string>)
    requires |ws| == 1 && IsWord(ws[0])
    ensures Words(JoinWith(ws, ' ')) == ws
  {
    WordOfWord(ws[0]);
    WordsWhole(ws[0]);
  }

  lemma AllWordsTail(ws: seq<string>)
    requires ws != [] && forall i :: 0 <= i < |ws| ==> IsWord(ws[i])
    ensures forall i :: 0 <= i < |ws[1..]| ==> IsWord(ws[1..][i])
  {
    forall i | 0 <= i < |ws[1..]| ensures IsWord(ws[1..][i]) {
      assert ws[1..][i] == ws[i + 1];
    }
  }

  lemma WordsOfJoinStep(ws: seq<string>)
    requires |ws| > 1 && forall i :: 0 <= i < |ws| ==> IsWord(ws[i])
    requires Words(JoinWith(ws[1..], ' ')) == ws[1..]
    ensures Words(JoinWith(ws, ' ')) == ws
  {
    var j := JoinWith(ws[1..], ' ');
    assert JoinWith(ws, ' ') == ws[0] + [' '] + j;
    assert IsWord(ws[0]) && IsWord(ws[1..][0]);
    WordThenSpace(ws[0], j);
    JoinStartsWithWord(ws[1..]);
    SpaceThenWords(j);
    ConsHeadTail(ws);
  }

  /** One space in front of a string that starts with a word adds no word. */
  lemma SpaceThenWords(j: string)
    requires j != [] && !IsSpace(j[0])
    ensures Words([' '] + j) == Words(j)
  {
    WordsAfterSpace([' '] + j);
    TailOfCons(' ', j);
    assert TrimStart(j) == j;
  }

  /** A word, one space and a string starting with a word: the first word, then the string's words. */
  lemma WordThenSpace(w: string, j: string)
    requires IsWord(w)
    ensures Words(w + [' '] + j) == [w] + Words([' '] + j)
  {
    var s := w + [' '] + j;
    AppendAssoc(w, [' '], j);
    WordOfWord(w);
    WordAppend(w, [' '] + j);
    WordsFront(s);
    DropOfAppend(w, [' '] + j, |w|);
  }

  /** Joined words start with a character that is not whitespace. */
  lemma JoinStartsWithWord(ws: seq<string>)
    requires ws != [] && IsWord(ws[0])
    ensures JoinWith(ws, ' ') != [] && !IsSpace(JoinWith(ws, ' ')[0])
  {
  }

  /** The words of each line in turn. */
  function LineWords(lines: seq<string>): seq<string> {
    if lines == [] then [] else Words(lines[0]) + LineWords(lines[1..])
  }

  /** Lines joined by single spaces hold the words of each line, in order. */
  lemma {:induction false} WordsOfJoinedLines(lines: seq<string>)
    ensures Words(JoinWith(lines, ' ')) == LineWords(lines)
  {
    if |lines| == 1 {
      assert lines[1..] == [];
      AppendEmpty(Words(lines[0]));
    } else if |lines| > 1 {
      WordsOfJoinedLines(lines[1..]);
      WordsOfSpaced(lines[0], JoinWith(lines[1..], ' '));
    }
  }

  /** Every piece `LineWords` returns is a word. */
  lemma {:induction false} LineWordsAreWords(lines: seq<string>)
    ensures forall i :: 0 <= i < |LineWords(lines)| ==> IsWord(LineWords(lines)[i])
  {
    if lines != [] {
      LineWordsAreWords(lines[1..]);
      WordsAreWords(lines[0]);
      AllWordsAppend(Words(lines[0]), LineWords(lines[1..]));
    }
  }

  lemma AllWordsAppend(a: seq<string>, b: seq<string>)
    requires forall i :: 0 <= i < |a| ==> IsWord(a[i])
    requires forall i :: 0 <= i < |b| ==> IsWord(b[i])
    ensures forall i :: 0 <= i < |a + b| ==> IsWord((a + b)[i])
  {
    forall i | 0 <= i < |a + b| ensures IsWord((a + b)[i]) {
      if i >= |a| {
        assert (a + b)[i] == b[i - |a|];
      }
    }
  }

  /** Two strings joined by one space: the words of the first, then those of the second. */
  lemma {:induction false} WordsOfSpaced(a: string, b: string)
    ensures Words(a + [' '] + b) == Words(a) + Words(b)
    decreases |a|
  {
    AppendAssoc(a, [' '], b);
    var t := TrimStart(a);
    if t == [] {
      WordsOfBlankThen(a, [' '] + b);
      WordsAfterSpace([' '] + b);
      TailOfCons(' ', b);
      WordsSkip(b);
      AppendEmpty(Words(b));
    } else {
      var after := t[|Word(t)|..];
      WordsOfSpaced(after, b);
      AppendAssoc(after, [' '], b);
      WordsOfSpacedStep(a, b);
    }
  }

  lemma WordsOfSpacedStep(a: string, b: string)
    requires TrimStart(a) != []
    requires var t := TrimStart(a); Words(t[|Word(t)|..] + ([' '] + b)) == Words(t[|Word(t)|..]) + Words(b)
    ensures Words(a + ([' '] + b)) == Words(a) + Words(b)
  {
    var t := TrimStart(a);
    var w := Word(t);
    var after := t[|w|..];
    WordsOfAppend(a, [' '] + b);
    WordsUnfold(a);
    AppendAssoc([w], Words(after), Words(b));
  }

  /** Leading whitespace adds no word. */
  lemma WordsOfBlankThen(p: string, x: string)
    requires TrimStart(p) == []
    ensures Words(p + x) == Words(x)
  {
    TrimStartBlank(p, x);
    WordsSkip(p + x);
    WordsSkip(x);
  }

  lemma {:induction false} TrimStartBlank(p: string, x: string)
    requires TrimStart(p) == []
    ensures TrimStart(p + x) == TrimStart(x)
  {
    if p == [] {
      AppendEmpty(x);
    } else {
      assert IsSpace(p[0]);
      TrimStartSkip(p, x);
      TrimStartBlank(p[1..], x);
    }
  }

  /** One space for a string that starts with whitespace, else nothing. */
  function LeadingSpace(s: string): string {
    if s != [] && IsSpace(s[0]) then " " else ""
  }

  /** One space for a string that ends with whitespace, else nothing. */
  function TrailingSpace(s: string): string {
    if s != [] && IsSpace(s[|s| - 1]) then " " else ""
  }

  /**
   * `replace(/\s+/g, ' ')` keeps the words and puts exactly one space between
   * neighbours, and one in front or behind where the string has whitespace there.
   */
  lemma CollapseIsWords(s: string)
    ensures Words(s) == [] ==> Collapse(s) == LeadingSpace(s)
    ensures Words(s) != [] ==> Collapse(s) == LeadingSpace(s) + JoinWith(Words(s), ' ') + TrailingSpace(s)
  {
    if s != [] {
      if IsSpace(s[0]) {
        CollapseFromSpace(s);
      } else {
        CollapseFromWord(s);
      }
    }
  }

  lemma CollapseFromWord(s: string)
    requires s != [] && !IsSpace(s[0])
    ensures Words(s) != []
    ensures Collapse(s) == LeadingSpace(s) + JoinWith(Words(s), ' ') + TrailingSpace(s)
  {
    CollapseWords(s);
    WordsFront(s);
    AppendEmpty(JoinWith(Words(s), ' '));
  }

  lemma CollapseFromSpace(s: string)
    requires s != [] && IsSpace(s[0])
    ensures Words(s) == [] ==> Collapse(s) == " "
    ensures Words(s) != [] ==> Collapse(s) == " " + JoinWith(Words(s), ' ') + TrailingSpace(s)
  {
    var more := TrimStart(s[1..]);
    WordsAfterSpace(s);
    if more != [] {
      CollapseWords(more);
      WordsFront(more);
      SuffixAfter(s, 0, more);
      SameLast(s, more);
      AppendAssoc(" ", JoinWith(Words(s), ' '), TrailingSpace(s));
    }
  }

  /** `trim()` then `replace(/\s+/g, ' ')`: the words, joined by single spaces. */
  lemma CollapseTrimWords(s: string)
    ensures Collapse(Trim(s)) == JoinWith(Words(s), ' ')
  {
    var t := Trim(s);
    CollapseWords(t);
    AppendEmpty(JoinWith(Words(t), ' '));
    WordsTrim(s);
  }

  /** A suffix of `s` ends where `s` ends. */
  lemma SameLast(s: string, t: string)
    requires t != [] && |t| <= |s| && t == s[|s| - |t|..]
    ensures TrailingSpace(t) == TrailingSpace(s)
  {
    assert t[|t| - 1] == s[|s| - 1];
  }

  /** Skipping leading whitespace does not change the words. */
  lemma WordsSkip(s: string)
    ensures Words(TrimStart(s)) == Words(s)
  {
    var t := TrimStart(s);
    assert TrimStart(t) == t;
  }

  /** A string that starts with a word splits into that word and the words after it. */
  lemma WordsFront(s: string)
    requires s != [] && !IsSpace(s[0])
    ensures Words(s) == [Word(s)] + Words(s[|Word(s)|..])
  {
    assert TrimStart(s) == s;
  }

  /** Trimming does not change the words. */
  lemma WordsTrim(s: string)
    ensures Words(Trim(s)) == Words(s)
  {
    WordsSkip(s);
    WordsTrimEnd(TrimStart(s));
  }

  lemma WordsTrimEnd(t: string)
    ensures Words(TrimEnd(t)) == Words(t)
  {
    var r := TrimEnd(t);
    var sp := t[|r|..];
    assert t == r + sp;
    assert AllSpace(sp) by {
      forall i | 0 <= i < |sp| ensures IsSpace(sp[i]) {
        assert sp[i] == t[|r| + i];
      }
    }
    WordsAppendSpace(r, sp);
  }

  /** Whitespace after the last word adds no word. */
  lemma {:induction false} WordsAppendSpace(u: string, sp: string)
    requires AllSpace(sp)
    requires u == [] || !IsSpace(u[|u| - 1])
    ensures Words(u + sp) == Words(u)
    decreases |u|
  {
    var t := TrimStart(u);
    if t == [] {
      assert u == [];
      AppendEmpty(sp);
      assert TrimStart(sp) == [];
    } else {
      var w := Word(t);
      var after := t[|w|..];
      assert after != [] ==> after[|after| - 1] == u[|u| - 1];
      WordsAppendSpace(after, sp);
      WordsAppendStep(u, sp);
    }
  }

  lemma WordsAppendStep(u: string, sp: string)
    requires AllSpace(sp) && TrimStart(u) != []
    requires var t := TrimStart(u); Words(t[|Word(t)|..] + sp) == Words(t[|Word(t)|..])
    ensures Words(u + sp) == Words(u)
  {
    assert sp == [] || IsSpace(sp[0]);
    WordsOfAppend(u, sp);
    WordsUnfold(u);
  }

  /** Appending a string that starts with whitespace keeps the first word and appends it to what follows. */
  lemma WordsOfAppend(u: string, x: string)
    requires TrimStart(u) != [] && (x == [] || IsSpace(x[0]))
    ensures var t := TrimStart(u); Words(u + x) == [Word(t)] + Words(t[|Word(t)|..] + x)
  {
    var t := TrimStart(u);
    var w := Word(t);
    TrimStartAppend(u, x);
    WordAppend(t, x);
    DropOfAppend(t, x, |w|);
    WordsUnfold(u + x);
  }

  /** The words of a string that is not blank: the word after the leading whitespace, then the rest. */
  lemma WordsUnfold(s: string)
    requires TrimStart(s) != []
    ensures var t := TrimStart(s); Words(s) == [Word(t)] + Words(t[|Word(t)|..])
  {
  }

  /**
   * What follows a string leaves its first word alone when that word ends
   * before the string does, or when what follows starts with whitespace.
   */
  lemma {:induction false} WordAppend(a: string, b: string)
    requires |Word(a)| < |a| || b == [] || IsSpace(b[0])
    ensures Word(a + b) == Word(a)
  {
    if a == [] {
      AppendEmpty(b);
    } else if IsSpace(a[0]) {
      assert (a + b)[0] == a[0];
    } else {
      WordAppend(a[1..], b);
      TailOfAppend(a, b);
      assert (a + b)[0] == a[0];
    }
  }

  /** `replace(/\s+/g, ' ')` copies the leading word, then goes on after it. */
  lemma {:induction false} CollapseWord(s: string)
    ensures Collapse(s) == Word(s) + Collapse(s[|Word(s)|..])
    decreases |s|
  {
    if s == [] || IsSpace(s[0]) {
      assert s[0..] == s;
      AppendEmpty(Collapse(s));
    } else {
      CollapseWord(s[1..]);
      CollapseWordStep(s);
    }
  }

  lemma CollapseWordStep(s: string)
    requires s != [] && !IsSpace(s[0])
    requires Collapse(s[1..]) == Word(s[1..]) + Collapse(s[1..][|Word(s[1..])|..])
    ensures Collapse(s) == Word(s) + Collapse(s[|Word(s)|..])
  {
    var v := Word(s[1..]);
    assert s[1..][|v|..] == s[|v| + 1..];
    AppendAssoc([s[0]], v, Collapse(s[|v| + 1..]));
  }

  /**
   * From the start of a word on, `replace(/\s+/g, ' ')` yields the words joined
   * by single spaces, plus one space when the string ends with whitespace.
   */
  lemma {:induction false} CollapseWords(s: string)
    requires s == [] || !IsSpace(s[0])
    ensures Collapse(s) == JoinWith(Words(s), ' ') + TrailingSpace(s)
    decreases |s|
  {
    if s != [] {
      var rest := s[|Word(s)|..];
      if rest == [] {
        CollapseLastWord(s);
      } else {
        var more := TrimStart(rest[1..]);
        if more == [] {
          CollapseWordThenSpace(s);
        } else {
          CollapseWords(more);
          CollapseWordThenMore(s, more);
        }
      }
    }
  }

  lemma CollapseLastWord(s: string)
    requires s != [] && !IsSpace(s[0]) && |Word(s)| == |s|
    ensures Collapse(s) == JoinWith(Words(s), ' ') + TrailingSpace(s)
  {
    CollapseWhole(s);
    WordsWhole(s);
    assert !IsSpace(Word(s)[|s| - 1]);
    AppendEmpty(s);
  }

  lemma WordWhole(s: string)
    requires |Word(s)| == |s|
    ensures Word(s) == s
  {
    assert s[..|s|] == s;
  }

  lemma CollapseWhole(s: string)
    requires |Word(s)| == |s|
    ensures Collapse(s) == s
  {
    WordWhole(s);
    CollapseWord(s);
    assert s[|s|..] == [];
    AppendEmpty(s);
  }

  lemma WordsWhole(s: string)
    requires s != [] && !IsSpace(s[0]) && |Word(s)| == |s|
    ensures Words(s) == [s]
  {
    WordWhole(s);
    WordsFront(s);
    assert s[|s|..] == [];
    assert Words([]) == [];
    AppendEmpty([s]);
  }

  lemma CollapseWordThenSpace(s: string)
    requires s != [] && !IsSpace(s[0]) && |Word(s)| < |s|
    requires TrimStart(s[|Word(s)|..][1..]) == []
    ensures Collapse(s) == JoinWith(Words(s), ' ') + TrailingSpace(s)
  {
    var w := Word(s);
    var rest := s[|w|..];
    CollapseWord(s);
    CollapseBlank(rest);
    WordsFront(s);
    WordsBlank(rest);
    AppendEmpty([w]);
    assert IsSpace(s[|s| - 1]) by {
      assert s[|s| - 1] == rest[|rest| - 1];
      if |rest| > 1 {
        assert rest[|rest| - 1] == rest[1..][|rest| - 2];
      }
    }
  }

  /** Nothing but whitespace collapses to one space. */
  lemma CollapseBlank(r: string)
    requires r != [] && IsSpace(r[0]) && TrimStart(r[1..]) == []
    ensures Collapse(r) == " "
  {
    assert Collapse([]) == [];
    AppendEmpty(" ");
  }

  /** Nothing but whitespace holds no word. */
  lemma WordsBlank(r: string)
    requires r != [] && IsSpace(r[0]) && TrimStart(r[1..]) == []
    ensures Words(r) == []
  {
    assert TrimStart(r) == [];
  }

  lemma CollapseWordThenMore(s: string, more: string)
    requires s != [] && !IsSpace(s[0]) && |Word(s)| < |s|
    requires more == TrimStart(s[|Word(s)|..][1..]) && more != []
    requires Collapse(more) == JoinWith(Words(more), ' ') + TrailingSpace(more)
    ensures Collapse(s) == JoinWith(Words(s), ' ') + TrailingSpace(s)
  {
    TrailingAfterWord(s, more);
    CollapseAfterWord(s, more);
    JoinAfterWord(s, more);
    AppendAssoc(Word(s), [' '], JoinWith(Words(more), ' ') + TrailingSpace(s));
    AppendAssoc(Word(s) + [' '], JoinWith(Words(more), ' '), TrailingSpace(s));
  }

  lemma TrailingAfterWord(s: string, more: string)
    requires |Word(s)| < |s|
    requires more == TrimStart(s[|Word(s)|..][1..]) && more != []
    ensures TrailingSpace(more) == TrailingSpace(s)
  {
    SuffixAfter(s, |Word(s)|, more);
    SameLast(s, more);
  }

  /** What follows position `w` and the whitespace after it is a suffix of `s`. */
  lemma SuffixAfter(s: string, w: nat, more: string)
    requires w < |s| && more == TrimStart(s[w..][1..])
    ensures |more| <= |s| && more == s[|s| - |more|..]
  {
    var tail := s[w..][1..];
    DropDrop(s, w, 1);
    DropDrop(s, w + 1, |tail| - |more|);
  }

  lemma CollapseAfterWord(s: string, more: string)
    requires s != [] && !IsSpace(s[0]) && |Word(s)| < |s|
    requires more == TrimStart(s[|Word(s)|..][1..])
    ensures Collapse(s) == Word(s) + ([' '] + Collapse(more))
  {
    CollapseWord(s);
    CollapseSpaceRun(s[|Word(s)|..]);
  }

  lemma JoinAfterWord(s: string, more: string)
    requires s != [] && !IsSpace(s[0]) && |Word(s)| < |s|
    requires more == TrimStart(s[|Word(s)|..][1..]) && more != []
    ensures JoinWith(Words(s), ' ') == Word(s) + [' '] + JoinWith(Words(more), ' ')
  {
    WordsFront(s);
    WordsAfterSpace(s[|Word(s)|..]);
    WordsFront(more);
    JoinCons(Word(s), Words(more), ' ');
  }

  /** A whitespace run collapses to one space in front of what follows it. */
  lemma CollapseSpaceRun(r: string)
    requires r != [] && IsSpace(r[0])
    ensures Collapse(r) == [' '] + Collapse(TrimStart(r[1..]))
  {
  }

  /** Whitespace in front adds no word. */
  lemma WordsAfterSpace(r: string)
    requires r != [] && IsSpace(r[0])
    ensures Words(r) == Words(TrimStart(r[1..]))
  {
    assert TrimStart(r) == TrimStart(r[1..]);
    WordsSkip(r);
  }

  /** `r` is the piece of `s` from `k` on, with only whitespace before and after it. */
  predicate TrimmedAt(s: string, r: string, k: nat) {
    k + |r| <= |s| && r == s[k..k + |r|] && AllSpace(s[..k]) && AllSpace(s[k + |r|..])
  }

  /** `trim()` cuts one contiguous piece out of `s`, with only whitespace on either side. */
  lemma TrimSlice(s: string)
    ensures exists k: nat :: TrimmedAt(s, Trim(s), k)
  {
    var t := TrimStart(s);
    var k := |s| - |t|;
    var r := TrimEnd(t);
    SpaceBeforeTrim(s);
    SpaceAfterTrim(t);
    SliceAt(s, k, t, r);
    assert Trim(s) == r;
    assert TrimmedAt(s, Trim(s), k);
  }

  /** A prefix `r` of the suffix `t` of `s` from `k`, with whitespace around it, is trimmed from `s` at `k`. */
  lemma SliceAt(s: string, k: nat, t: string, r: string)
    requires k <= |s| && t == s[k..] && |r| <= |t| && r == t[..|r|]
    requires AllSpace(s[..k]) && AllSpace(t[|r|..])
    ensures TrimmedAt(s, r, k)
  {
    TakeOfDrop(s, k, |r|);
    DropDrop(s, k, |r|);
  }

  /** What `trimStart()` drops is whitespace. */
  lemma SpaceBeforeTrim(s: string)
    ensures AllSpace(s[..|s| - |TrimStart(s)|])
  {
    var front := s[..|s| - |TrimStart(s)|];
    forall i | 0 <= i < |front| ensures IsSpace(front[i]) {
      assert front[i] == s[i];
    }
  }

  /** What `trimEnd()` drops is whitespace. */
  lemma SpaceAfterTrim(t: string)
    ensures AllSpace(t[|TrimEnd(t)|..])
  {
    var back := t[|TrimEnd(t)|..];
    forall i | 0 <= i < |back| ensures IsSpace(back[i]) {
      assert back[i] == t[|TrimEnd(t)| + i];
    }
  }

  /** `replace(/\r\n/g, '\n')`, scanning left to right. */
  function ReplaceCrlf(s: string): (r: string)
    ensures |r| <= |s|
  {
    if |s| >= 2 && s[0] == '\r' && s[1] == '\n' then ['\n'] + ReplaceCrlf(s[2..])
    else if s == [] then []
    else [s[0]] + ReplaceCrlf(s[1..])
  }

  lemma {:induction false} ReplaceCrlfWithoutCr(s: string)
    requires '\r' !in s
    ensures ReplaceCrlf(s) == s
  {
    if s != [] {
      assert s[0] != '\r';
      ReplaceCrlfWithoutCr(s[1..]);
    }
  }

  /** A carriage-return-free prefix is copied, then a CRLF becomes a line feed. */
  lemma {:induction false} CrlfAfter(a: string, rest: string)
    requires '\r' !in a
    ensures ReplaceCrlf(a + ("\r\n" + rest)) == a + ("\n" + ReplaceCrlf(rest))
  {
    if a == [] {
      CrlfHead(rest);
      AppendEmpty("\r\n" + rest);
      AppendEmpty("\n" + ReplaceCrlf(rest));
    } else {
      CrlfAfter(a[1..], rest);
      CrlfAfterStep(a, rest);
    }
  }

  lemma CrlfAfterStep(a: string, rest: string)
    requires a != [] && a[0] != '\r'
    requires ReplaceCrlf(a[1..] + ("\r\n" + rest)) == a[1..] + ("\n" + ReplaceCrlf(rest))
    ensures ReplaceCrlf(a + ("\r\n" + rest)) == a + ("\n" + ReplaceCrlf(rest))
  {
    TailOfAppend(a, "\r\n" + rest);
    HeadThenTail(a, "\n" + ReplaceCrlf(rest));
  }

  lemma CrlfHead(rest: string)
    ensures ReplaceCrlf("\r\n" + rest) == "\n" + ReplaceCrlf(rest)
  {
    assert ("\r\n" + rest)[2..] == rest;
  }

  /** A carriage return not followed by a line feed is kept, and the scan goes on after it. */
  lemma {:induction false} LoneCrAfter(a: string, rest: string)
    requires '\r' !in a
    requires rest == [] || rest[0] != '\n'
    ensures ReplaceCrlf(a + ("\r" + rest)) == a + ("\r" + ReplaceCrlf(rest))
  {
    if a == [] {
      LoneCrHead(rest);
      AppendEmpty("\r" + rest);
      AppendEmpty("\r" + ReplaceCrlf(rest));
    } else {
      LoneCrAfter(a[1..], rest);
      LoneCrAfterStep(a, rest);
    }
  }

  lemma LoneCrAfterStep(a: string, rest: string)
    requires a != [] && a[0] != '\r'
    requires ReplaceCrlf(a[1..] + ("\r" + rest)) == a[1..] + ("\r" + ReplaceCrlf(rest))
    ensures ReplaceCrlf(a + ("\r" + rest)) == a + ("\r" + ReplaceCrlf(rest))
  {
    TailOfAppend(a, "\r" + rest);
    HeadThenTail(a, "\r" + ReplaceCrlf(rest));
  }

  lemma LoneCrHead(rest: string)
    requires rest == [] || rest[0] != '\n'
    ensures ReplaceCrlf("\r" + rest) == "\r" + ReplaceCrlf(rest)
  {
    assert ("\r" + rest)[1..] == rest;
  }

  /** `split('\n')`: the pieces between line feeds, one more than there are line feeds. */
  function Lines(s: string): (r: seq<string>)
    ensures |r| >= 1
    ensures forall i :: 0 <= i < |r| ==> '\n' !in r[i]
    ensures '\n' !in s ==> r == [s]
  {
    if s == [] then [[]]
    else if s[0] == '\n' then [[]] + Lines(s[1..])
    else
      var rest := Lines(s[1..]);
      assert [s[0]] + s[1..] == s;
      [[s[0]] + rest[0]] + rest[1..]
  }

  /** `join(sep)` with a one-character separator. */
  function JoinWith(parts: seq<string>, sep: char): (r: string)
    ensures parts != [] ==> parts[0] <= r
    ensures |parts| >= 2 ==> |parts[0]| < |r| && r[|parts[0]|] == sep
  {
    if |parts| == 0 then []
    else if |parts| == 1 then parts[0]
    else parts[0] + [sep] + JoinWith(parts[1..], sep)
  }

  /** Joining puts the separator between the first piece and the join of the rest. */
  lemma JoinCons(part: string, rest: seq<string>, sep: char)
    requires rest != []
    ensures JoinWith([part] + rest, sep) == part + [sep] + JoinWith(rest, sep)
  {
    TailOfCons(part, rest);
  }

  lemma {:induction false} JoinLines(s: string)
    ensures JoinWith(Lines(s), '\n') == s
  {
    if s != [] {
      JoinLines(s[1..]);
      var rest := Lines(s[1..]);
      if s[0] != '\n' {
        var r := Lines(s);
        assert r[1..] == rest[1..];
        if |rest| == 1 {
          assert JoinWith(r, '\n') == [s[0]] + rest[0];
        } else {
          assert JoinWith(r, '\n') == [s[0]] + rest[0] + ['\n'] + JoinWith(rest[1..], '\n');
        }
      } else {
        assert Lines(s) == [[]] + rest;
      }
    }
  }

  lemma {:induction false} LinesOfJoin(parts: seq<string>)
    requires |parts| >= 1
    requires forall i :: 0 <= i < |parts| ==> '\n' !in parts[i]
    ensures Lines(JoinWith(parts, '\n')) == parts
  {
    if |parts| == 1 {
    } else {
      LinesOfJoin(parts[1..]);
      LinesOfPrefixed(parts[0], JoinWith(parts[1..], '\n'));
      assert JoinWith(parts, '\n') == parts[0] + ['\n'] + JoinWith(parts[1..], '\n');
      assert [parts[0]] + parts[1..] == parts;
    }
  }

  /** Splitting "line + \n + rest" yields the line followed by the pieces of rest. */
  lemma {:induction false} LinesOfPrefixed(line: string, rest: string)
    requires '\n' !in line
    ensures Lines(line + ['\n'] + rest) == [line] + Lines(rest)
  {
    if line == [] {
      assert line + ['\n'] + rest == ['\n'] + rest;
      assert (['\n'] + rest)[1..] == rest;
    } else {
      var s := line + ['\n'] + rest;
      assert s[1..] == line[1..] + ['\n'] + rest;
      LinesOfPrefixed(line[1..], rest);
      assert [s[0]] + line[1..] == line;
    }
  }

  /** `pat` occurs in `s` starting at index `i`. */
  predicate MatchAt(s: string, pat: string, i: nat) {
    i + |pat| <= |s| && s[i..i + |pat|] == pat
  }

  /** `i` is where `pat` first occurs in `s`. */
  predicate FirstMatch(s: string, pat: string, i: nat) {
    MatchAt(s, pat, i) && forall j: nat :: j < i ==> !MatchAt(s, pat, j)
  }

  /** The first position at or after `k` where `pat` occurs: the search behind `includes` and `replace`. */
  function IndexOf(s: string, pat: string, k: nat): (r: Option<nat>)
    ensures r.Some? ==> k <= r.value && MatchAt(s, pat, r.value)
    ensures r.Some? ==> forall j :: k <= j < r.value ==> !MatchAt(s, pat, j)
    ensures r.None? ==> forall j :: k <= j ==> !MatchAt(s, pat, j)
    decreases |s| - k
  {
    if k + |pat| > |s| then None
    else if s[k..k + |pat|] == pat then Some(k)
    else IndexOf(s, pat, k + 1)
  }

  /** `includes(pat)`. */
  function Includes(s: string, pat: string): (b: bool)
    ensures b <==> exists i: nat :: MatchAt(s, pat, i)
  {
    IndexOf(s, pat, 0).Some?
  }

  /** `replace(pat, '')` with a string pattern: only the first occurrence of `pat` is cut out. */
  function RemoveFirst(s: string, pat: string): (r: string)
    ensures !Includes(s, pat) ==> r == s
    ensures Includes(s, pat) ==> |r| == |s| - |pat|
    ensures Includes(s, pat) ==>
      exists i: nat :: FirstMatch(s, pat, i) && r == s[..i] + s[i + |pat|..]
  {
    match IndexOf(s, pat, 0)
    case None => s
    case Some(i) => s[..i] + s[i + |pat|..]
  }

  /** Removing a non-empty pattern changes the string exactly when the pattern occurs. */
  lemma RemoveFirstChanges(s: string, pat: string)
    ensures |pat| > 0 ==> (RemoveFirst(s, pat) == s <==> !Includes(s, pat))
  {
    if |pat| > 0 && Includes(s, pat) {
      assert |RemoveFirst(s, pat)| < |s|;
    }
  }
}
