/**
 * `MessageExportView.format_message` (cosinnus_message/api/views.py): five
 * `re.sub` rewrites applied one after the other, each scanning left to right
 * and replacing non-overlapping matches, each seeing the previous one's output.
 */
module MessageFormat {
  import opened Strings

  /** `re.sub` of a literal pattern: leftmost, non-overlapping replacement of `pat` by `rep`. */
  function ReplaceLiteral(s: string, pat: string, rep: string): string
    requires |pat| > 0
    decreases |s|
  {
    if s == [] then []
    else if |pat| <= |s| && s[..|pat|] == pat then rep + ReplaceLiteral(s[|pat|..], pat, rep)
    else [s[0]] + ReplaceLiteral(s[1..], pat, rep)
  }

  /** `pat` occurs somewhere in `s`. */
  predicate Occurs(s: string, pat: string)
    requires |pat| > 0
    decreases |s|
  {
    |pat| <= |s| && (s[..|pat|] == pat || Occurs(s[1..], pat))
  }

  /** Text in which the pattern does not occur is left as it is. */
  lemma {:induction false} ReplaceAbsent(s: string, pat: string, rep: string)
    requires |pat| > 0 && !Occurs(s, pat)
    ensures ReplaceLiteral(s, pat, rep) == s
    decreases |s|
  {
    if s != [] {
      assert !Occurs(s[1..], pat);
      ReplaceAbsent(s[1..], pat, rep);
      assert s == [s[0]] + s[1..];
    }
  }

  // --- step 1: `re.sub(r'\n_ ', '\n- ', text)` ------------------------------

  function ListUnderscores(s: string): string
  {
    ReplaceLiteral(s, "\n_ ", "\n- ")
  }

  /** A three-character marker `\n` c ` ` rewritten to `\n- `. */
  function ReplaceMarker(s: string, c: char): string
  {
    ReplaceLiteral(s, ['\n', c, ' '], "\n- ")
  }

  /** Rewriting keeps the first character of a text that does not start with a marker. */
  lemma ReplaceMarkerHead(s: string, c: char)
    requires s != [] && !(3 <= |s| && s[..3] == ['\n', c, ' '])
    ensures ReplaceMarker(s, c) == [s[0]] + ReplaceMarker(s[1..], c)
  {
  }

  /** The rewritten text never starts with a marker. */
  lemma NoMarkerAtHead(s: string, c: char)
    requires c != '\n' && c != '-'
    ensures var r := ReplaceMarker(s, c); !(3 <= |r| && r[..3] == ['\n', c, ' '])
  {
    var pat := ['\n', c, ' '];
    var r := ReplaceMarker(s, c);
    if 3 <= |s| && s[..3] == pat {
      assert r == "\n- " + ReplaceMarker(s[3..], c);
      assert r[..3][1] == '-';
    } else if s != [] && s[0] == '\n' && 3 <= |r| {
      var t := ReplaceMarker(s[1..], c);
      ReplaceMarkerHead(s, c);
      assert r[1..] == t;
      if 3 <= |s[1..]| && s[1..][..3] == pat {
        assert t[0] == '\n';
        assert r[..3][1] == '\n';
      } else {
        assert |t| >= 2;
        assert |s[1..]| >= 1;
        ReplaceMarkerHead(s[1..], c);
        var u := ReplaceMarker(s[2..], c);
        assert t[1..] == u;
        assert r[..3][1] == s[1];
        if s[1] == c {
          assert |u| >= 1;
          assert |s| >= 3;
          if 3 <= |s[2..]| && s[2..][..3] == pat {
            assert u[0] == '\n';
            assert r[..3][2] == '\n';
          } else {
            ReplaceMarkerHead(s[2..], c);
            assert u[0] == s[2];
            assert r[..3] == s[..3];
          }
          assert !(r[..3] == pat);
        } else {
          assert r[..3][1] != pat[1];
        }
      }
      assert !(r[..3] == pat);
    } else if s != [] && 3 <= |r| {
      ReplaceMarkerHead(s, c);
      assert r[..3][0] == s[0];
    }
  }

  /** After rewriting, no `\n` c ` ` is left, for any marker character other than `\n` and `-`. */
  lemma {:induction false} MarkerNotLeft(s: string, c: char)
    requires c != '\n' && c != '-'
    ensures !Occurs(ReplaceMarker(s, c), ['\n', c, ' '])
    decreases |s|
  {
    var pat := ['\n', c, ' '];
    var r := ReplaceMarker(s, c);
    NoMarkerAtHead(s, c);
    if s == [] {
      return;
    }
    if 3 <= |s| && s[..3] == pat {
      var t := ReplaceMarker(s[3..], c);
      assert r == "\n- " + t;
      MarkerNotLeft(s[3..], c);
      assert r[1..] == "- " + t && r[2..] == " " + t && r[3..] == t;
      assert !Occurs(r[2..], pat);
      assert !Occurs(r[1..], pat);
    } else {
      var t := ReplaceMarker(s[1..], c);
      ReplaceMarkerHead(s, c);
      MarkerNotLeft(s[1..], c);
      assert r[1..] == t;
    }
  }

  /** Every `\n_ ` list marker has become `\n- `. */
  lemma UnderscoreMarkersGone(s: string)
    ensures !Occurs(ListUnderscores(s), "\n_ ")
  {
    MarkerNotLeft(s, '_');
  }

  // --- step 2: `re.sub(r'\n* ', '\n- ', text)` ------------------------------

  predicate IsNewline(c: char) { c == '\n' }

  /**
   * The regex `\n* ` quantifies the newline: at each position it takes the
   * whole run of newlines there, and matches when a space follows it.
   */
  function ListSpaces(s: string): string
    decreases |s|
  {
    if s == [] then []
    else
      var k := RunLength(s, 0, IsNewline);
      if k < |s| && s[k] == ' ' then "\n- " + ListSpaces(s[k + 1..])
      else [s[0]] + ListSpaces(s[1..])
  }

  /** Text without spaces is left as it is. */
  lemma {:induction false} ListSpacesNoSpace(s: string)
    requires ' ' !in s
    ensures ListSpaces(s) == s
  {
    if s != [] {
      var k := RunLength(s, 0, IsNewline);
      assert k < |s| ==> s[k] != ' ';
      ListSpacesNoSpace(s[1..]);
    }
  }

  /** Every space of `r` ends a `\n- ` marker. */
  predicate SpacesMarked(r: string)
  {
    forall j :: 0 <= j < |r| && r[j] == ' ' ==> 2 <= j && r[j - 2] == '\n' && r[j - 1] == '-'
  }

  lemma MarkerKeepsSpacesMarked(t: string)
    requires SpacesMarked(t)
    ensures SpacesMarked("\n- " + t)
  {
    var r := "\n- " + t;
    forall j | 0 <= j < |r| && r[j] == ' ' ensures 2 <= j && r[j - 2] == '\n' && r[j - 1] == '-' {
      if j >= 3 {
        assert r[j] == t[j - 3];
        assert r[j - 2] == t[j - 5] && r[j - 1] == t[j - 4];
      }
    }
  }

  lemma CopyKeepsSpacesMarked(c: char, t: string)
    requires c != ' ' && SpacesMarked(t)
    ensures SpacesMarked([c] + t)
  {
    var r := [c] + t;
    forall j | 0 <= j < |r| && r[j] == ' ' ensures 2 <= j && r[j - 2] == '\n' && r[j - 1] == '-' {
      assert r[j] == t[j - 1];
      assert r[j - 2] == t[j - 3] && r[j - 1] == t[j - 2];
    }
  }

  /** Every space in the output is the end of a `\n- ` marker. */
  lemma {:induction false} ListSpacesMarksEverySpace(s: string)
    ensures SpacesMarked(ListSpaces(s))
    decreases |s|
  {
    if s != [] {
      var k := RunLength(s, 0, IsNewline);
      if k < |s| && s[k] == ' ' {
        ListSpacesMarksEverySpace(s[k + 1..]);
        MarkerKeepsSpacesMarked(ListSpaces(s[k + 1..]));
      } else {
        ListSpacesMarksEverySpace(s[1..]);
        assert s[0] != ' ';
        CopyKeepsSpacesMarked(s[0], ListSpaces(s[1..]));
      }
    }
  }

  // --- step 3: `re.sub(r'(^|\n|[^\*])\*($|\n|[^\*])', r'\1_\2', text)` ------

  /**
   * The group after the star at position `p`: `$` (end of text, or just before
   * a final newline) matches empty; `\n` and `[^\*]` take one character.
   * Returns how many characters the group takes, or None.
   */
  function TailGroup(s: string, p: nat): (g: Option<nat>)
    requires p <= |s|
    ensures g.Some? ==> p + g.value <= |s|
    ensures g.Some? ==> p == |s| || s[p] != '*'
  {
    if p == |s| || (p == |s| - 1 && s[p] == '\n') then Some(0)
    else if s[p] != '*' then Some(1)
    else None
  }

  /** What one step of the italic scan at position `i` emits, and where the scan resumes. */
  datatype Piece = Piece(out: string, next: nat)

  /**
   * One step of the italic scan. At the start of the text `^` lets a leading
   * star match; elsewhere the star needs one non-star character before it,
   * which the match consumes; the tail group after it is consumed too, so the
   * next match starts behind it. Where nothing matches, one character is
   * copied.
   */
  function ItalicMatch(s: string, i: nat): (p: Piece)
    requires i < |s|
    ensures i < p.next <= |s|
  {
    if i == 0 && s[0] == '*' && TailGroup(s, 1).Some? then
      var g := TailGroup(s, 1).value;
      Piece("_" + s[1..1 + g], 1 + g)
    else if i + 1 < |s| && s[i] != '*' && s[i + 1] == '*' && TailGroup(s, i + 2).Some? then
      var g := TailGroup(s, i + 2).value;
      Piece([s[i]] + "_" + s[i + 2..i + 2 + g], i + 2 + g)
    else Piece([s[i]], i + 1)
  }

  /** The italic rewrite of `s` from position `i` on. */
  function ItalicFrom(s: string, i: nat): string
    requires i <= |s|
    decreases |s| - i
  {
    if i == |s| then []
    else
      var p := ItalicMatch(s, i);
      p.out + ItalicFrom(s, p.next)
  }

  function Italic(s: string): string
  {
    ItalicFrom(s, 0)
  }

  /** A star whose neighbours (if any) are not stars. */
  predicate LoneStar(s: string, j: nat)
    requires j < |s|
  {
    s[j] == '*' && (j == 0 || s[j - 1] != '*') && (j + 1 == |s| || s[j + 1] != '*')
  }

  /** `c`, standing at position `j` of the output, is `s[j]` or a lone star of `s` turned into `_`. */
  predicate Keeps(s: string, j: nat, c: char)
    requires j < |s|
  {
    c == s[j] || (LoneStar(s, j) && c == '_')
  }

  /** `r`, placed at position `i` of `s`, keeps every character but lone stars. */
  predicate Agrees(s: string, i: nat, r: string)
  {
    i + |r| <= |s| && forall k :: 0 <= k < |r| ==> Keeps(s, i + k, r[k])
  }

  lemma AgreesConcat(s: string, i: nat, a: string, b: string)
    requires Agrees(s, i, a) && Agrees(s, i + |a|, b)
    ensures Agrees(s, i, a + b)
  {
    forall k | 0 <= k < |a + b| ensures Keeps(s, i + k, (a + b)[k]) {
      if k >= |a| {
        assert (a + b)[k] == b[k - |a|];
        assert Keeps(s, i + |a| + (k - |a|), b[k - |a|]);
      }
    }
  }

  lemma AgreesSlice(s: string, i: nat, j: nat)
    requires i <= j <= |s|
    ensures Agrees(s, i, s[i..j])
  {
    forall k | 0 <= k < j - i ensures Keeps(s, i + k, s[i..j][k]) {
    }
  }

  /** One step emits as many characters as it consumes, changing only lone stars. */
  lemma ItalicMatchAgrees(s: string, i: nat)
    requires i < |s|
    ensures |ItalicMatch(s, i).out| == ItalicMatch(s, i).next - i
    ensures Agrees(s, i, ItalicMatch(s, i).out)
  {
    if i == 0 && s[0] == '*' && TailGroup(s, 1).Some? {
      var g := TailGroup(s, 1).value;
      assert Keeps(s, 0, '_');
      assert Agrees(s, 0, "_");
      AgreesSlice(s, 1, 1 + g);
      AgreesConcat(s, 0, "_", s[1..1 + g]);
    } else if i + 1 < |s| && s[i] != '*' && s[i + 1] == '*' && TailGroup(s, i + 2).Some? {
      var g := TailGroup(s, i + 2).value;
      assert Keeps(s, i + 1, '_');
      assert Agrees(s, i, [s[i]] + "_");
      AgreesSlice(s, i + 2, i + 2 + g);
      AgreesConcat(s, i, [s[i]] + "_", s[i + 2..i + 2 + g]);
    } else {
      assert Keeps(s, i + 0, s[i]);
    }
  }

  /**
   * The italic rewrite keeps the length and changes nothing but lone stars,
   * each into `_`.
   */
  lemma {:induction false} ItalicOnlyTurnsLoneStars(s: string, i: nat)
    requires i <= |s|
    ensures |ItalicFrom(s, i)| == |s| - i
    ensures Agrees(s, i, ItalicFrom(s, i))
    decreases |s| - i
  {
    if i < |s| {
      var p := ItalicMatch(s, i);
      ItalicMatchAgrees(s, i);
      ItalicOnlyTurnsLoneStars(s, p.next);
      AgreesConcat(s, i, p.out, ItalicFrom(s, p.next));
    }
  }

  /** A non-star not followed by a star is copied, and the scan moves on by one. */
  lemma ItalicCopies(s: string, i: nat)
    requires i < |s| && s[i] != '*' && (i + 1 == |s| || s[i + 1] != '*')
    ensures ItalicFrom(s, i) == [s[i]] + ItalicFrom(s, i + 1)
  {
    ItalicMatchCopies(s, i);
  }

  /** Where no match starts, the italic step copies one character. */
  lemma ItalicMatchCopies(s: string, i: nat)
    requires i < |s| && s[i] != '*' && (i + 1 == |s| || s[i + 1] != '*')
    ensures ItalicMatch(s, i) == Piece([s[i]], i + 1)
  {
  }

  /** From a position where no star is left, the italic scan copies the rest. */
  lemma {:induction false} ItalicFromNoStars(s: string, i: nat)
    requires i <= |s|
    requires forall j :: i <= j < |s| ==> s[j] != '*'
    ensures ItalicFrom(s, i) == s[i..]
    decreases |s| - i
  {
    if i < |s| {
      assert s[i] != '*' && (i + 1 == |s| || s[i + 1] != '*');
      ItalicCopies(s, i);
      ItalicFromNoStars(s, i + 1);
      assert s[i..] == [s[i]] + s[i + 1..];
    }
  }

  /** Text without stars is left as it is by the italic step. */
  lemma ItalicWithoutStars(s: string)
    requires '*' !in s
    ensures Italic(s) == s
  {
    ItalicFromNoStars(s, 0);
  }

  /** A non-star before a final star: both are consumed, the star becomes `_`. */
  lemma ItalicClosesAtEnd(s: string)
    requires |s| >= 2 && s[|s| - 2] != '*' && s[|s| - 1] == '*'
    ensures ItalicFrom(s, |s| - 2) == [s[|s| - 2]] + "_"
  {
    var n := |s|;
    assert TailGroup(s, n) == Some(0);
    assert s[n..n] == [];
    assert ItalicMatch(s, n - 2) == Piece([s[n - 2]] + "_", n);
  }

  /** Inside `*x*` the scan copies up to the closing star, which becomes `_`. */
  lemma {:induction false} ItalicClosing(s: string, i: nat)
    requires 2 <= i <= |s| - 2 && s[|s| - 1] == '*'
    requires forall j :: 1 <= j < |s| - 1 ==> s[j] != '*'
    ensures ItalicFrom(s, i) == s[i..|s| - 1] + "_"
    decreases |s| - i
  {
    var n := |s|;
    if i == n - 2 {
      assert s[i] != '*';
      ItalicClosesAtEnd(s);
      assert s[i..n - 1] == [s[i]];
    } else {
      ItalicClosing(s, i + 1);
      ItalicClosingStep(s, i);
    }
  }

  /** One step of `ItalicClosing`: a copied non-star in front of the closed rest. */
  lemma ItalicClosingStep(s: string, i: nat)
    requires 2 <= i < |s| - 2 && s[|s| - 1] == '*'
    requires s[i] != '*' && s[i + 1] != '*'
    requires ItalicFrom(s, i + 1) == s[i + 1..|s| - 1] + "_"
    ensures ItalicFrom(s, i) == s[i..|s| - 1] + "_"
  {
    ItalicCopies(s, i);
    assert s[i..|s| - 1] == [s[i]] + s[i + 1..|s| - 1];
  }

  /** `*x*` becomes `_x_` when `x` has at least two characters and no star. */
  lemma ItalicWrapped(x: string)
    requires |x| >= 2 && '*' !in x
    ensures Italic("*" + x + "*") == "_" + x + "_"
  {
    var s := "*" + x + "*";
    var n := |s|;
    assert ItalicMatch(s, 0) == Piece("_" + [x[0]], 2) by {
      assert s[1] == x[0] && s[2] == x[1];
      assert TailGroup(s, 1) == Some(1);
    }
    assert ItalicFrom(s, 2) == x[1..] + "_" by {
      forall j | 1 <= j < n - 1 ensures s[j] != '*' {
        assert s[j] == x[j - 1];
      }
      ItalicClosing(s, 2);
      assert s[2..n - 1] == x[1..];
    }
    calc {
      Italic(s);
      ItalicFrom(s, 0);
      ("_" + [x[0]]) + ItalicFrom(s, 2);
      ("_" + [x[0]]) + (x[1..] + "_");
      { assert [x[0]] + x[1..] == x; }
      "_" + x + "_";
    }
  }

  /** `*c*` with one character inside keeps its closing star: the opening match has consumed `c`. */
  lemma ItalicSingle(c: char)
    requires c != '*'
    ensures Italic(['*', c, '*']) == ['_', c, '*']
  {
    var s := ['*', c, '*'];
    assert TailGroup(s, 1) == Some(1);
    assert ItalicMatch(s, 0) == Piece(['_', c], 2);
    assert ItalicMatch(s, 2) == Piece(['*'], 3);
    assert ItalicFrom(s, 2) == ['*'];
    assert ItalicFrom(s, 0) == ['_', c] + ['*'];
  }

  // --- steps 4 and 5: `**` to `*`, `~~` to `~` -------------------------------

  function Bold(s: string): string { ReplaceLiteral(s, "**", "*") }

  function Strike(s: string): string { ReplaceLiteral(s, "~~", "~") }

  /** Replacement copies a stretch in which the pattern's first character does not appear. */
  lemma {:induction false} ReplaceSkip(x: string, rest: string, pat: string, rep: string)
    requires |pat| > 0 && pat[0] !in x
    ensures ReplaceLiteral(x + rest, pat, rep) == x + ReplaceLiteral(rest, pat, rep)
    decreases |x|
  {
    if x != [] {
      var s := x + rest;
      assert s[0] == x[0];
      if |pat| <= |s| {
        assert s[..|pat|][0] == x[0];
      }
      assert x[0] != pat[0];
      assert s[1..] == x[1..] + rest;
      ReplaceSkip(x[1..], rest, pat, rep);
      assert ReplaceLiteral(s, pat, rep) == [x[0]] + (x[1..] + ReplaceLiteral(rest, pat, rep));
      assert [x[0]] + x[1..] == x;
    } else {
      assert x + rest == rest;
    }
  }

  /** Text in which the pattern's first character does not appear is left as it is. */
  lemma ReplaceUntouched(x: string, pat: string, rep: string)
    requires |pat| > 0 && pat[0] !in x
    ensures ReplaceLiteral(x, pat, rep) == x
  {
    ReplaceSkip(x, [], pat, rep);
    assert x + [] == x;
  }

  /** A stretch that starts with the pattern has its first match replaced there. */
  lemma ReplaceHead(pat: string, rest: string, rep: string)
    requires |pat| > 0
    ensures ReplaceLiteral(pat + rest, pat, rep) == rep + ReplaceLiteral(rest, pat, rep)
  {
    var s := pat + rest;
    assert s[..|pat|] == pat;
    assert s[|pat|..] == rest;
  }

  /** `format_message` as written. */
  function FormatMessage(text: string): string
  {
    Strike(Bold(Italic(ListSpaces(ListUnderscores(text)))))
  }

  /** Text with no space, newline, star or tilde, which no step of the rewrite touches by itself. */
  predicate Plain(x: string)
  {
    ' ' !in x && '\n' !in x && '*' !in x && '~' !in x
  }

  /** The rewrite leaves plain text as it is. */
  lemma FormatPlain(x: string)
    requires Plain(x)
    ensures FormatMessage(x) == x
  {
    ReplaceUntouched(x, "\n_ ", "\n- ");
    ListSpacesNoSpace(x);
    ItalicWithoutStars(x);
    ReplaceUntouched(x, "**", "*");
    ReplaceUntouched(x, "~~", "~");
  }

  /** A stretch wrapped in the pattern on both sides comes out wrapped in the replacement. */
  lemma PairReplaced(x: string, pat: string, rep: string)
    requires |pat| > 0 && pat[0] !in x
    ensures ReplaceLiteral(pat + x + pat, pat, rep) == rep + x + rep
  {
    calc {
      ReplaceLiteral(pat + x + pat, pat, rep);
      { assert pat + x + pat == pat + (x + pat); ReplaceHead(pat, x + pat, rep); }
      rep + ReplaceLiteral(x + pat, pat, rep);
      { ReplaceSkip(x, pat, pat, rep); }
      rep + (x + ReplaceLiteral(pat, pat, rep));
      { ReplaceHead(pat, [], rep); assert pat + [] == pat; assert rep + [] == rep; }
      rep + (x + (rep + ReplaceLiteral([], pat, rep)));
      { ReplaceUntouched([], pat, rep); }
      rep + x + rep;
    }
  }

  /** The italic step leaves star pairs around plain text alone. */
  lemma ItalicKeepsStarPairs(x: string)
    requires Plain(x)
    ensures Italic("**" + x + "**") == "**" + x + "**"
  {
    var s := "**" + x + "**";
    var n := |s|;
    ItalicOnlyTurnsLoneStars(s, 0);
    forall j | 0 <= j < n ensures Italic(s)[j] == s[j] {
      if 2 <= j < n - 2 {
        assert s[j] == x[j - 2];
      }
      assert !LoneStar(s, j);
      assert Keeps(s, 0 + j, Italic(s)[j]);
    }
  }

  /** The list steps leave text without spaces or newlines alone. */
  lemma ListStepsKeep(s: string)
    requires ' ' !in s && '\n' !in s
    ensures ListSpaces(ListUnderscores(s)) == s
  {
    ReplaceUntouched(s, "\n_ ", "\n- ");
    ListSpacesNoSpace(s);
  }

  /** Single-star emphasis of at least two characters becomes underscore emphasis. */
  lemma FormatItalic(x: string)
    requires Plain(x) && |x| >= 2
    ensures FormatMessage("*" + x + "*") == "_" + x + "_"
  {
    var s := "*" + x + "*";
    var u := "_" + x + "_";
    calc {
      FormatMessage(s);
      { assert ' ' !in s && '\n' !in s; ListStepsKeep(s); }
      Strike(Bold(Italic(s)));
      { ItalicWrapped(x); }
      Strike(Bold(u));
      { assert '*' !in u && '~' !in u; ReplaceUntouched(u, "**", "*"); ReplaceUntouched(u, "~~", "~"); }
      u;
    }
  }

  /** Double-star bold becomes single-star bold; the italic step leaves the star pairs alone. */
  lemma FormatBold(x: string)
    requires Plain(x)
    ensures FormatMessage("**" + x + "**") == "*" + x + "*"
  {
    var s := "**" + x + "**";
    var b := "*" + x + "*";
    calc {
      FormatMessage(s);
      { assert ' ' !in s && '\n' !in s; ListStepsKeep(s); }
      Strike(Bold(Italic(s)));
      { ItalicKeepsStarPairs(x); }
      Strike(Bold(s));
      { PairReplaced(x, "**", "*"); }
      Strike(b);
      { assert '~' !in b; ReplaceUntouched(b, "~~", "~"); }
      b;
    }
  }

  /** Double-tilde strike-through becomes single-tilde. */
  lemma FormatStrike(x: string)
    requires Plain(x)
    ensures FormatMessage("~~" + x + "~~") == "~" + x + "~"
  {
    var s := "~~" + x + "~~";
    calc {
      FormatMessage(s);
      { assert ' ' !in s && '\n' !in s; ListStepsKeep(s); }
      Strike(Bold(Italic(s)));
      { assert '*' !in s; ItalicWithoutStars(s); ReplaceUntouched(s, "**", "*"); }
      Strike(s);
      { PairReplaced(x, "~~", "~"); }
      "~" + x + "~";
    }
  }

  // --- the findings ------------------------------------------------------------

  /** The `\n_ ` step leaves a `* ` list line alone. */
  lemma UnderscoresOfStarLine(x: string)
    requires Plain(x)
    ensures ListUnderscores("\n* " + x) == "\n* " + x
  {
    var s := "\n* " + x;
    assert s[..3][1] == '*';
    assert s[1..] == "* " + x;
    assert '\n' !in s[1..];
    ReplaceUntouched(s[1..], "\n_ ", "\n- ");
    assert s == [s[0]] + s[1..];
  }

  /** A character other than newline or space is copied. */
  lemma ListSpacesCopies(c: char, t: string)
    requires c != '\n' && c != ' '
    ensures ListSpaces([c] + t) == [c] + ListSpaces(t)
  {
    var s := [c] + t;
    RunLengthExact(s, 0, IsNewline, 0);
    assert s[1..] == t;
  }

  /** A newline before a character other than newline or space is copied. */
  lemma ListSpacesCopiesNewline(t: string)
    requires t != [] && t[0] != '\n' && t[0] != ' '
    ensures ListSpaces("\n" + t) == "\n" + ListSpaces(t)
  {
    var s := "\n" + t;
    RunLengthExact(s, 0, IsNewline, 1);
    assert s[1..] == t;
  }

  /** A leading space becomes a `\n- ` marker. */
  lemma ListSpacesMarksSpace(t: string)
    ensures ListSpaces(" " + t) == "\n- " + ListSpaces(t)
  {
    var s := " " + t;
    RunLengthExact(s, 0, IsNewline, 0);
    assert s[1..] == t;
  }

  /** A space together with the whole run of newlines before it becomes one `\n- ` marker. */
  lemma ListSpacesAbsorbsNewlines(k: nat, t: string)
    ensures ListSpaces(seq(k, _ => '\n') + " " + t) == "\n- " + ListSpaces(t)
  {
    var s := seq(k, _ => '\n') + " " + t;
    assert forall j :: 0 <= j < k ==> IsNewline(s[j]);
    assert s[k] == ' ';
    RunLengthExact(s, 0, IsNewline, k);
    assert s[k + 1..] == t;
  }

  /** The space of a `* ` list line, and every other space, becomes a new `\n- ` line. */
  lemma ListSpacesOfStarLine(x: string)
    requires Plain(x)
    ensures ListSpaces("\n* " + x) == "\n*\n- " + x
  {
    var t2 := " " + x;
    var t1 := ['*'] + t2;
    var r2 := "\n- " + x;
    calc {
      ListSpaces("\n* " + x);
      { assert "\n* " + x == "\n" + t1; }
      ListSpaces("\n" + t1);
      { ListSpacesCopiesNewline(t1); }
      "\n" + ListSpaces(t1);
      { ListSpacesCopies('*', t2); }
      "\n" + (['*'] + ListSpaces(t2));
      { ListSpacesNoSpace(x); ListSpacesMarksSpace(x); }
      "\n" + (['*'] + r2);
      "\n*\n- " + x;
    }
  }

  /** The star, left alone on its line, is taken for italics. */
  lemma ItalicOfStarLine(x: string)
    requires Plain(x)
    ensures Italic("\n*\n- " + x) == "\n_\n- " + x
  {
    var t := "\n*\n- " + x;
    assert t[0] == '\n' && t[1] == '*' && t[2] == '\n';
    assert TailGroup(t, 2) == Some(1);
    assert t[2..3] == "\n";
    assert ItalicMatch(t, 0) == Piece("\n_\n", 3);
    forall j | 3 <= j < |t| ensures t[j] != '*' {
      if j >= 5 {
        assert t[j] == x[j - 5];
      }
    }
    ItalicFromNoStars(t, 3);
    assert t[3..] == "- " + x;
  }

  /**
   * As written, a `* ` list line does not become a `- ` line: the space
   * becomes a new `\n- ` line and the star, now alone on its line, becomes `_`.
   */
  lemma StarListLineAsWritten(x: string)
    requires Plain(x)
    ensures FormatMessage("\n* " + x) == "\n_\n- " + x
  {
    var a := ListUnderscores("\n* " + x);
    UnderscoresOfStarLine(x);
    var b := ListSpaces(a);
    ListSpacesOfStarLine(x);
    var c := Italic(b);
    ItalicOfStarLine(x);
    assert c == "\n_\n- " + x;
    assert '*' !in c && '~' !in c;
    ReplaceUntouched(c, "**", "*");
    ReplaceUntouched(c, "~~", "~");
  }

  /** A stretch without spaces or newlines is copied by the `\n* ` step. */
  lemma {:induction false} ListSpacesCopiesRun(x: string, t: string)
    requires ' ' !in x && '\n' !in x
    ensures ListSpaces(x + t) == x + ListSpaces(t)
  {
    if x == [] {
      assert x + t == t;
    } else {
      var rest := x[1..] + t;
      assert ListSpaces(x + t) == [x[0]] + ListSpaces(rest) by {
        assert x + t == [x[0]] + rest;
        ListSpacesCopies(x[0], rest);
      }
      assert ListSpaces(rest) == x[1..] + ListSpaces(t) by {
        ListSpacesCopiesRun(x[1..], t);
      }
      assert x == [x[0]] + x[1..];
    }
  }

  /** The `\n* ` step turns the space between two plain stretches into `\n- `. */
  lemma ListSpacesOfSpace(x: string, y: string)
    requires Plain(x) && Plain(y)
    ensures ListSpaces(x + " " + y) == x + "\n- " + y
  {
    assert x + " " + y == x + (" " + y);
    ListSpacesCopiesRun(x, " " + y);
    ListSpacesMarksSpace(y);
    ListSpacesNoSpace(y);
    assert x + "\n- " + y == x + ("\n- " + y);
  }

  /** Text without stars or tildes passes the italic, bold and strike steps unchanged. */
  lemma InlineStepsKeep(r: string)
    requires '*' !in r && '~' !in r
    ensures Strike(Bold(Italic(r))) == r
  {
    ItalicWithoutStars(r);
    ReplaceUntouched(r, "**", "*");
    ReplaceUntouched(r, "~~", "~");
  }

  /**
   * As written, every space of the body starts a new `- ` list line, since
   * `\n* ` also matches a space with no newline before it.
   */
  lemma SpaceAsWritten(x: string, y: string)
    requires Plain(x) && Plain(y)
    ensures FormatMessage(x + " " + y) == x + "\n- " + y
  {
    var s := x + " " + y;
    var r := x + "\n- " + y;
    assert ListUnderscores(s) == s by {
      assert '\n' !in s;
      ReplaceUntouched(s, "\n_ ", "\n- ");
    }
    ListSpacesOfSpace(x, y);
    assert '*' !in r && '~' !in r;
    InlineStepsKeep(r);
  }

  /** As written, one character between single stars is not made italic: only the opening star turns. */
  lemma SingleLetterItalicAsWritten(c: char)
    requires Plain([c])
    ensures FormatMessage(['*', c, '*']) == ['_', c, '*']
  {
    var s := ['*', c, '*'];
    assert ' ' !in s && '\n' !in s;
    ReplaceUntouched(s, "\n_ ", "\n- ");
    ListSpacesNoSpace(s);
    ItalicSingle(c);
    var u := ['_', c, '*'];
    assert u == "_" + [c] + "*";
    ReplaceSkip("_" + [c], "*", "**", "*");
    assert Bold(u) == u;
    assert '~' !in u;
    ReplaceUntouched(u, "~~", "~");
  }

  /** The list step as its comment describes it: `\n* ` to `\n- `. */
  function ListStars(s: string): string
  {
    ReplaceMarker(s, '*')
  }

  /** The italic step as its comment describes it: every single star, not part of `**`, becomes `_`. */
  function ItalicLoneStars(s: string): (r: string)
    ensures |r| == |s|
    ensures forall j :: 0 <= j < |s| ==> r[j] == (if LoneStar(s, j) then '_' else s[j])
  {
    seq(|s|, j requires 0 <= j < |s| => if LoneStar(s, j) then '_' else s[j])
  }

  /** What the italic step as written emits always agrees with the intended one, character by character, or is an unconverted lone star. */
  lemma ItalicAsWrittenWithinIntended(s: string)
    ensures |Italic(s)| == |ItalicLoneStars(s)|
    ensures forall j :: 0 <= j < |s| ==>
              Italic(s)[j] == ItalicLoneStars(s)[j] || (LoneStar(s, j) && Italic(s)[j] == '*')
  {
    ItalicOnlyTurnsLoneStars(s, 0);
    forall j | 0 <= j < |s|
      ensures Italic(s)[j] == ItalicLoneStars(s)[j] || (LoneStar(s, j) && Italic(s)[j] == '*')
    {
      assert Keeps(s, 0 + j, Italic(s)[j]);
    }
  }

  /** `format_message` with both rewrites as their comments describe them. */
  function FormatMessageIntended(text: string): string
  {
    Strike(Bold(ItalicLoneStars(ListStars(ListUnderscores(text)))))
  }

  /** With the intended list step no `\n* ` marker reaches the emphasis rewrites, and a `* ` line becomes a `- ` line. */
  lemma StarListLineIntended(text: string, x: string)
    requires Plain(x)
    ensures !Occurs(ListStars(ListUnderscores(text)), "\n* ")
    ensures FormatMessageIntended("\n* " + x) == "\n- " + x
  {
    MarkerNotLeft(ListUnderscores(text), '*');
    UnderscoresOfStarLine(x);
    ReplaceHead("\n* ", x, "\n- ");
    ReplaceUntouched(x, "\n* ", "\n- ");
    var r := "\n- " + x;
    assert ListStars("\n* " + x) == r;
    assert '*' !in r && '~' !in r;
    forall j | 0 <= j < |r| ensures !LoneStar(r, j) {
    }
    assert ItalicLoneStars(r) == r;
    ReplaceUntouched(r, "**", "*");
    ReplaceUntouched(r, "~~", "~");
  }

  /** With the intended italic step, single stars around any non-empty plain text become underscores. */
  lemma ItalicIntended(x: string)
    requires Plain(x) && |x| >= 1
    ensures FormatMessageIntended("*" + x + "*") == "_" + x + "_"
  {
    var s := "*" + x + "*";
    var n := |s|;
    assert '\n' !in s;
    ReplaceUntouched(s, "\n_ ", "\n- ");
    ReplaceUntouched(s, "\n* ", "\n- ");
    var u := "_" + x + "_";
    forall j | 0 <= j < n ensures ItalicLoneStars(s)[j] == u[j] {
      if 1 <= j < n - 1 {
        assert s[j] == x[j - 1] && u[j] == x[j - 1];
      } else {
        assert s[1] == x[0] && s[n - 2] == x[n - 3];
        assert LoneStar(s, j);
      }
    }
    assert ItalicLoneStars(s) == u;
    assert '*' !in u && '~' !in u;
    ReplaceUntouched(u, "**", "*");
    ReplaceUntouched(u, "~~", "~");
  }
}
