/**
 * The text side of direct replies by email (cosinnus_message/utils/utils.py,
 * and the identical copy in cosinnus_message/utils.py): finding the
 * `directreply+<portal>+<hash>@` token in a mail body, and cutting the quoted
 * previous message off a reply.
 */
module ReplyText {
  import opened Strings

  /** What `DIRECT_REPLY_ADDRESSEE` captures: the portal id and the message hash. */
  datatype ReplyToken = ReplyToken(portalId: nat, hash: string)

  const Keyword: string := "directreply"

  /**
   * `directreply` at position `i`, the letters in any case (what
   * `LowerAscii(s[i..i + 11]) == Keyword` says, letter by letter), followed
   * by the `+`.
   */
  predicate KeywordAt(s: string, i: nat)
  {
    && i + 12 <= |s|
    && (forall k :: 0 <= k < |Keyword| ==> LowerChar(s[i + k]) == Keyword[k])
    && s[i + 11] == '+'
  }

  /** The letter-by-letter test is the case-folded comparison of the eleven letters. */
  lemma KeywordAtLowered(s: string, i: nat)
    requires i + 12 <= |s|
    ensures KeywordAt(s, i) <==> LowerAscii(s[i..i + 11]) == Keyword && s[i + 11] == '+'
  {
    var w := LowerAscii(s[i..i + 11]);
    if forall k :: 0 <= k < |Keyword| ==> LowerChar(s[i + k]) == Keyword[k] {
      assert forall k :: 0 <= k < 11 ==> w[k] == Keyword[k];
    }
    if w == Keyword {
      forall k | 0 <= k < |Keyword| ensures LowerChar(s[i + k]) == Keyword[k] {
        assert s[i..i + 11][k] == s[i + k];
      }
    }
  }

  /**
   * A group `([class]+)` followed by the character `stop`, tried at `j`: the
   * greedy run of the class, when it is not empty and `stop` follows it.
   * Since `stop` lies outside the class, the greedy run is the only way the
   * group can be followed by `stop`.
   */
  function GroupAt(s: string, j: nat, inClass: char -> bool, stop: char): (r: Option<string>)
    requires j <= |s|
    ensures r.Some? ==> j + |r.value| < |s|
  {
    var t := RunLength(s, j, inClass);
    if t > 0 && j + t < |s| && s[j + t] == stop then Some(s[j..j + t]) else None
  }

  /** The group, read as a description: `g` is a non-empty run of the class at `j`, followed by `stop`. */
  ghost predicate GroupIs(s: string, j: nat, inClass: char -> bool, stop: char, g: string)
  {
    && |g| > 0 && j + |g| < |s|
    && s[j..j + |g|] == g && (forall k :: 0 <= k < |g| ==> inClass(g[k]))
    && s[j + |g|] == stop
  }

  /** Where the description holds, the group is found, provided `stop` is outside the class. */
  lemma GroupIsFound(s: string, j: nat, inClass: char -> bool, stop: char, g: string)
    requires GroupIs(s, j, inClass, stop, g) && !inClass(stop)
    ensures GroupAt(s, j, inClass, stop) == Some(g)
  {
    forall k | j <= k < j + |g|
      ensures inClass(s[k])
    {
      assert s[k] == g[k - j];
    }
    RunLengthExact(s, j, inClass, |g|);
  }

  /** What is found meets the description. */
  lemma FoundGroupIs(s: string, j: nat, inClass: char -> bool, stop: char)
    requires j <= |s| && GroupAt(s, j, inClass, stop).Some?
    ensures GroupIs(s, j, inClass, stop, GroupAt(s, j, inClass, stop).value)
  {
    var g := GroupAt(s, j, inClass, stop).value;
    forall k | 0 <= k < |g| ensures inClass(g[k]) {
      assert g[k] == s[j + k];
    }
  }

  /**
   * The regular expression `directreply\+([0-9]+)\+([a-zA-Z0-9]+)@` (ignoring
   * case) tried at position `i`.
   */
  function MatchAt(s: string, i: nat): Option<ReplyToken>
    requires i <= |s|
  {
    if !KeywordAt(s, i) then None
    else
      match GroupAt(s, i + 12, IsDigit, '+')
      case None => None
      case Some(digits) =>
        match GroupAt(s, i + 13 + |digits|, IsAsciiAlnum, '@')
        case None => None
        case Some(hash) => Some(ReplyToken(DecimalValue(digits), hash))
  }

  /** The pattern, read as a description: some split of `s` from `i` into its parts. */
  ghost predicate PatternAt(s: string, i: nat, digits: string, hash: string)
  {
    && KeywordAt(s, i)
    && GroupIs(s, i + 12, IsDigit, '+', digits)
    && GroupIs(s, i + 13 + |digits|, IsAsciiAlnum, '@', hash)
  }

  /** Every split the pattern allows is the one `MatchAt` finds. */
  lemma PatternAtIsMatch(s: string, i: nat, digits: string, hash: string)
    requires PatternAt(s, i, digits, hash)
    ensures MatchAt(s, i) == Some(ReplyToken(DecimalValue(digits), hash))
  {
    GroupIsFound(s, i + 12, IsDigit, '+', digits);
    GroupIsFound(s, i + 13 + |digits|, IsAsciiAlnum, '@', hash);
  }

  /** What `MatchAt` finds is a split the pattern allows. */
  lemma MatchIsPatternAt(s: string, i: nat) returns (digits: string, hash: string)
    requires i <= |s| && MatchAt(s, i).Some?
    ensures PatternAt(s, i, digits, hash)
    ensures MatchAt(s, i).value == ReplyToken(DecimalValue(digits), hash)
  {
    digits := GroupAt(s, i + 12, IsDigit, '+').value;
    FoundGroupIs(s, i + 12, IsDigit, '+');
    hash := GroupAt(s, i + 13 + |digits|, IsAsciiAlnum, '@').value;
    FoundGroupIs(s, i + 13 + |digits|, IsAsciiAlnum, '@');
  }

  /** `MatchAt` finds exactly the splits the pattern allows, and reads the portal id as a decimal. */
  lemma MatchAtIsPattern(s: string, i: nat, t: ReplyToken)
    requires i <= |s|
    ensures MatchAt(s, i) == Some(t) <==>
            exists digits, hash :: PatternAt(s, i, digits, hash) && t == ReplyToken(DecimalValue(digits), hash)
  {
    if MatchAt(s, i) == Some(t) {
      var digits, hash := MatchIsPatternAt(s, i);
    }
    if exists digits, hash :: PatternAt(s, i, digits, hash) && t == ReplyToken(DecimalValue(digits), hash) {
      var digits, hash :| PatternAt(s, i, digits, hash) && t == ReplyToken(DecimalValue(digits), hash);
      PatternAtIsMatch(s, i, digits, hash);
    }
  }

  /** `re.search` from position `i`: the first position at which the pattern matches. */
  function SearchFrom(s: string, i: nat): Option<ReplyToken>
    requires i <= |s|
    decreases |s| - i
  {
    if i == |s| then None
    else if MatchAt(s, i).Some? then MatchAt(s, i)
    else SearchFrom(s, i + 1)
  }

  /** `DIRECT_REPLY_ADDRESSEE.search(text)` with its two groups converted. */
  function ParseToken(text: string): Option<ReplyToken>
  {
    SearchFrom(text, 0)
  }

  ghost predicate LeftmostAt(s: string, i: nat, t: ReplyToken)
  {
    i <= |s| && MatchAt(s, i) == Some(t) && forall j :: 0 <= j < i ==> MatchAt(s, j).None?
  }

  lemma {:induction false} SearchFromLeftmost(s: string, i: nat)
    requires i <= |s|
    requires forall j :: 0 <= j < i ==> MatchAt(s, j).None?
    ensures SearchFrom(s, i).Some? ==> LeftmostAt(s, FoundAt(s, i), SearchFrom(s, i).value)
    ensures SearchFrom(s, i).None? ==> forall j :: 0 <= j <= |s| ==> MatchAt(s, j).None?
    decreases |s| - i
  {
    if i < |s| && MatchAt(s, i).None? {
      SearchFromLeftmost(s, i + 1);
    }
  }

  /** Where `SearchFrom` stops. */
  function FoundAt(s: string, i: nat): (k: nat)
    requires i <= |s|
    ensures i <= k <= |s|
    decreases |s| - i
  {
    if i == |s| || MatchAt(s, i).Some? then i else FoundAt(s, i + 1)
  }

  /**
   * The token is the leftmost match of the pattern in the text, and there is
   * none only when the pattern matches nowhere.
   */
  lemma ParseTokenLeftmost(text: string)
    ensures ParseToken(text).Some? ==> exists i :: LeftmostAt(text, i, ParseToken(text).value)
    ensures ParseToken(text).None? ==> forall i :: 0 <= i <= |text| ==> MatchAt(text, i).None?
  {
    SearchFromLeftmost(text, 0);
  }

  // ---------------------------------------------------------------------
  // clean_reply_message_quotation
  // ---------------------------------------------------------------------

  /** Index of the first line starting with `>`, or the number of lines. */
  function QuoteStart(lines: seq<string>): (k: nat)
    ensures k <= |lines|
    ensures forall j :: 0 <= j < k ==> !StartsWithQuote(lines[j])
    ensures k < |lines| ==> StartsWithQuote(lines[k])
  {
    if lines == [] || StartsWithQuote(lines[0]) then 0 else 1 + QuoteStart(lines[1..])
  }

  /** The lines without their trailing blank lines. */
  function TrimTrailing(lines: seq<string>): seq<string>
  {
    if lines == [] then []
    else if IsBlank(lines[|lines| - 1]) then TrimTrailing(lines[..|lines| - 1])
    else lines
  }

  /** The lines without their leading blank lines. */
  function TrimLeading(lines: seq<string>): seq<string>
  {
    if lines == [] then []
    else if IsBlank(lines[0]) then TrimLeading(lines[1..])
    else lines
  }

  function Reverse<T>(s: seq<T>): (r: seq<T>)
    ensures |r| == |s|
  {
    if s == [] then [] else Reverse(s[1..]) + [s[0]]
  }

  lemma {:induction false} ReverseAt<T>(s: seq<T>, k: nat)
    requires k < |s|
    ensures Reverse(s)[k] == s[|s| - 1 - k]
  {
    if k < |s| - 1 {
      ReverseAt(s[1..], k);
    }
  }

  lemma ReverseReverse<T>(s: seq<T>)
    ensures Reverse(Reverse(s)) == s
  {
    forall k | 0 <= k < |s| ensures Reverse(Reverse(s))[k] == s[k] {
      ReverseAt(Reverse(s), k);
      ReverseAt(s, |s| - 1 - k);
    }
  }

  /** The source trims leading blanks by reversing, trimming trailing blanks and reversing back. */
  lemma {:induction false} TrimLeadingByReversal(lines: seq<string>)
    ensures Reverse(TrimTrailing(Reverse(lines))) == TrimLeading(lines)
  {
    if lines != [] {
      var rv := Reverse(lines);
      assert rv == Reverse(lines[1..]) + [lines[0]];
      assert rv[..|rv| - 1] == Reverse(lines[1..]);
      if IsBlank(lines[0]) {
        TrimLeadingByReversal(lines[1..]);
      } else {
        ReverseReverse(lines);
      }
    }
  }

  /** The `:`-line rule: after a quote was cut, drop an "... wrote:" last line and re-trim. */
  function DropPreamble(lines: seq<string>, hadReply: bool): seq<string>
  {
    if lines != [] && hadReply && EndsWithColonStripped(lines[|lines| - 1]) then
      TrimTrailing(lines[..|lines| - 1])
    else lines
  }

  /**
   * The cleaned lines, with `had_reply` read as the comment beside it says:
   * true when the scan stopped at a `>` line.
   */
  function CleanedLines(lines: seq<string>): seq<string>
  {
    var kept := lines[..QuoteStart(lines)];
    DropPreamble(TrimLeading(TrimTrailing(kept)), |kept| < |lines|)
  }

  /** The cleaned text of a reply body. */
  function CleanText(text: string): string
  {
    JoinWith('\n', CleanedLines(SplitOn('\n', text)))
  }

  /** The cleaned lines as the Python 2 code computes them: `len(clean_lines) < lines` is always true there. */
  function CleanedLinesAsWritten(lines: seq<string>): seq<string>
  {
    var kept := lines[..QuoteStart(lines)];
    DropPreamble(TrimLeading(TrimTrailing(kept)), true)
  }

  function CleanTextAsWritten(text: string): string
  {
    JoinWith('\n', CleanedLinesAsWritten(SplitOn('\n', text)))
  }

  // --- what the trimming keeps ----------------------------------------------

  /** Dropping trailing blank lines keeps a prefix ending in a non-blank line; every dropped line is blank. */
  lemma {:induction false} TrimTrailingIsPrefix(lines: seq<string>) returns (b: nat)
    ensures b <= |lines| && TrimTrailing(lines) == lines[..b]
    ensures TrimTrailing(lines) == [] || !IsBlank(TrimTrailing(lines)[|TrimTrailing(lines)| - 1])
    ensures forall j :: b <= j < |lines| ==> IsBlank(lines[j])
  {
    if lines != [] && IsBlank(lines[|lines| - 1]) {
      var init := lines[..|lines| - 1];
      b := TrimTrailingIsPrefix(init);
      assert init[..b] == lines[..b];
      forall j | b <= j < |lines| ensures IsBlank(lines[j]) {
        if j < |init| {
          assert init[j] == lines[j];
        }
      }
    } else {
      b := |lines|;
      assert lines[..|lines|] == lines;
    }
  }

  /** Dropping leading blank lines keeps a suffix starting with a non-blank line; every dropped line is blank. */
  lemma {:induction false} TrimLeadingIsSuffix(lines: seq<string>) returns (a: nat)
    ensures a <= |lines| && TrimLeading(lines) == lines[a..]
    ensures TrimLeading(lines) == [] || !IsBlank(TrimLeading(lines)[0])
    ensures forall j :: 0 <= j < a ==> IsBlank(lines[j])
  {
    if lines != [] && IsBlank(lines[0]) {
      var a1 := TrimLeadingIsSuffix(lines[1..]);
      assert lines[1..][a1..] == lines[a1 + 1..];
      a := a1 + 1;
      forall j | 0 < j < a ensures IsBlank(lines[j]) {
        assert lines[1..][j - 1] == lines[j];
      }
    } else {
      a := 0;
      assert lines[0..] == lines;
    }
  }

  /** Trimming leading blanks keeps a non-blank last line. */
  lemma {:induction false} TrimLeadingKeepsLast(lines: seq<string>)
    requires lines != [] && !IsBlank(lines[|lines| - 1])
    ensures TrimLeading(lines) != [] && !IsBlank(TrimLeading(lines)[|TrimLeading(lines)| - 1])
  {
    var _ := TrimLeadingIsSuffix(lines);
    if IsBlank(lines[0]) {
      TrimLeadingKeepsLast(lines[1..]);
    }
  }

  /** Trimming trailing blanks keeps a non-blank first line. */
  lemma {:induction false} TrimTrailingKeepsFirst(lines: seq<string>)
    requires lines != [] && !IsBlank(lines[0])
    ensures TrimTrailing(lines) != [] && TrimTrailing(lines)[0] == lines[0]
  {
    if IsBlank(lines[|lines| - 1]) {
      TrimTrailingKeepsFirst(lines[..|lines| - 1]);
    }
  }

  /** Trimming blank edges removes nothing from lines whose edges are not blank. */
  lemma TrimmedUnchanged(lines: seq<string>)
    requires lines == [] || (!IsBlank(lines[0]) && !IsBlank(lines[|lines| - 1]))
    ensures TrimLeading(TrimTrailing(lines)) == lines
  {
  }

  /**
   * Trimming blank lines at both ends leaves a run of the lines whose edge
   * lines are not blank, and every line dropped on either side is blank.
   */
  lemma TrimBothIsRun(lines: seq<string>) returns (a: nat, b: nat)
    ensures a <= b <= |lines| && TrimLeading(TrimTrailing(lines)) == lines[a..b]
    ensures a < b ==> !IsBlank(lines[a]) && !IsBlank(lines[b - 1])
    ensures forall j :: 0 <= j < a ==> IsBlank(lines[j])
    ensures forall j :: b <= j < |lines| ==> IsBlank(lines[j])
  {
    var tt := TrimTrailing(lines);
    b := TrimTrailingIsPrefix(lines);
    a := TrimLeadingIsSuffix(tt);
    assert tt[a..] == lines[a..b];
    forall j | 0 <= j < a ensures IsBlank(lines[j]) {
      assert tt[j] == lines[j];
    }
    if a < b {
      assert tt[a..][0] == lines[a];
      assert tt[|tt| - 1] == lines[b - 1];
    }
  }

  /**
   * Dropping the preamble line keeps a prefix of the lines; what goes is the
   * last line, ending in `:` after a quote was cut, and blank lines.
   */
  lemma DropPreambleIsPrefix(lines: seq<string>, hadReply: bool) returns (c: nat)
    ensures c <= |lines| && DropPreamble(lines, hadReply) == lines[..c]
    ensures forall j :: c <= j < |lines| ==>
              IsBlank(lines[j]) || (hadReply && j == |lines| - 1 && EndsWithColonStripped(lines[j]))
  {
    if DropPreamble(lines, hadReply) == lines {
      c := |lines|;
      assert lines[..c] == lines;
    } else {
      var init := lines[..|lines| - 1];
      c := TrimTrailingIsPrefix(init);
      assert init[..c] == lines[..c];
      forall j | c <= j < |lines| - 1 ensures IsBlank(lines[j]) {
        assert init[j] == lines[j];
      }
    }
  }

  /** A prefix of a run of a prefix is a run of the whole. */
  lemma SliceOfSlice<T>(s: seq<T>, q: nat, a: nat, b: nat, c: nat)
    requires a <= b <= q <= |s| && c <= b - a
    ensures s[..q][a..b][..c] == s[a..a + c]
  {
    forall i | 0 <= i < c
      ensures s[..q][a..b][..c][i] == s[a..a + c][i]
    {
    }
  }

  /**
   * The cleaned lines are a run of the lines before the first quote line;
   * every line dropped before the run is blank, and every one dropped after
   * it is blank or, once a quote was cut, ends in `:`.
   */
  lemma CleanedIsRunBeforeQuote(lines: seq<string>) returns (a: nat, b: nat)
    ensures a <= b <= QuoteStart(lines) && CleanedLines(lines) == lines[a..b]
    ensures forall j :: 0 <= j < a ==> IsBlank(lines[j])
    ensures forall j :: b <= j < QuoteStart(lines) ==>
              IsBlank(lines[j]) || (QuoteStart(lines) < |lines| && EndsWithColonStripped(lines[j]))
  {
    var q := QuoteStart(lines);
    var kept := lines[..q];
    var hadReply := |kept| < |lines|;
    var a0, b0 := TrimBothIsRun(kept);
    var tl := TrimLeading(TrimTrailing(kept));
    var c := DropPreambleIsPrefix(tl, hadReply);
    assert c <= b0 - a0 && CleanedLines(lines) == tl[..c];
    assert tl[..c] == lines[a0..a0 + c] by {
      assert tl == lines[..q][a0..b0];
      SliceOfSlice(lines, q, a0, b0, c);
    }
    a, b := a0, a0 + c;
    forall j | 0 <= j < a ensures IsBlank(lines[j]) {
      assert kept[j] == lines[j];
    }
    forall j | b <= j < q
      ensures IsBlank(lines[j]) || (q < |lines| && EndsWithColonStripped(lines[j]))
    {
      assert kept[j] == lines[j];
      if j < b0 {
        assert tl[j - a0] == lines[j] by {
          assert tl == kept[a0..b0];
        }
      }
    }
  }

  /** No cleaned line starts with `>`. */
  lemma CleanedHasNoQuote(lines: seq<string>)
    ensures forall j :: 0 <= j < |CleanedLines(lines)| ==> !StartsWithQuote(CleanedLines(lines)[j])
  {
    var a, b := CleanedIsRunBeforeQuote(lines);
    forall j | 0 <= j < |CleanedLines(lines)| ensures !StartsWithQuote(CleanedLines(lines)[j]) {
      assert CleanedLines(lines)[j] == lines[a + j];
    }
  }

  /** The cleaned lines start and end with a non-blank line. */
  lemma CleanedHasNoBlankEdges(lines: seq<string>)
    ensures CleanedLines(lines) == [] || !IsBlank(CleanedLines(lines)[0])
    ensures CleanedLines(lines) == [] || !IsBlank(CleanedLines(lines)[|CleanedLines(lines)| - 1])
  {
    var kept := lines[..QuoteStart(lines)];
    var tt := TrimTrailing(kept);
    var _ := TrimTrailingIsPrefix(kept);
    var tl := TrimLeading(tt);
    var _ := TrimLeadingIsSuffix(tt);
    if tt != [] {
      TrimLeadingKeepsLast(tt);
    }
    var r := CleanedLines(lines);
    if r != tl {
      var init := tl[..|tl| - 1];
      var _ := TrimTrailingIsPrefix(init);
      if init != [] {
        TrimTrailingKeepsFirst(init);
      }
    }
  }

  /**
   * The `:`-line is dropped exactly when a quote was cut and the trimmed lines
   * before it end in `:`; then that one line goes and trailing blank lines are
   * trimmed again. Otherwise the trimmed lines are the result.
   */
  lemma PreambleDroppedOnlyAfterQuote(lines: seq<string>)
    ensures QuoteStart(lines) == |lines| ==> CleanedLines(lines) == TrimLeading(TrimTrailing(lines))
    ensures var t := TrimLeading(TrimTrailing(lines[..QuoteStart(lines)]));
            QuoteStart(lines) < |lines| && t != [] && EndsWithColonStripped(t[|t| - 1]) ==>
              CleanedLines(lines) == TrimTrailing(t[..|t| - 1])
    ensures var t := TrimLeading(TrimTrailing(lines[..QuoteStart(lines)]));
            !(QuoteStart(lines) < |lines| && t != [] && EndsWithColonStripped(t[|t| - 1])) ==>
              CleanedLines(lines) == t
  {
    assert QuoteStart(lines) == |lines| ==> lines[..QuoteStart(lines)] == lines;
  }

  /** A body that starts with a quote line cleans to the empty text. */
  lemma QuoteOnlyCleansToEmpty(text: string)
    requires |text| > 0 && text[0] == '>'
    ensures CleanText(text) == ""
  {
    var lines := SplitOn('\n', text);
    assert lines[0] != [] && lines[0][0] == '>' by {
      var rest := SplitOn('\n', text[1..]);
      assert lines == [[text[0]] + rest[0]] + rest[1..];
    }
    assert QuoteStart(lines) == 0;
  }

  /** Cleaning an already cleaned text changes nothing. */
  lemma CleanTextIdempotent(text: string)
    ensures CleanText(CleanText(text)) == CleanText(text)
  {
    var r := CleanedLines(SplitOn('\n', text));
    var a, b := CleanedIsRunBeforeQuote(SplitOn('\n', text));
    CleanedHasNoBlankEdges(SplitOn('\n', text));
    var lines2 := SplitOn('\n', JoinWith('\n', r));
    if r == [] {
      assert JoinWith('\n', r) == "";
      assert lines2 == [[]];
      assert IsBlank(lines2[0]);
      assert TrimTrailing(lines2) == [];
      assert QuoteStart(lines2) == 1;
      assert lines2[..1] == lines2;
    } else {
      assert forall k :: 0 <= k < |r| ==> '\n' !in r[k];
      SplitJoin('\n', r);
      assert lines2 == r;
      QuoteStartNone(r);
      assert r[..|r|] == r;
      TrimmedUnchanged(r);
    }
  }

  lemma QuoteStartNone(lines: seq<string>)
    requires forall j :: 0 <= j < |lines| ==> !StartsWithQuote(lines[j])
    ensures QuoteStart(lines) == |lines|
  {
  }

  /**
   * Finding: as written, a reply without any quote still loses a last line
   * ending in `:`; with `had_reply` as intended it is kept.
   */
  lemma ColonLineWithoutQuote()
    ensures CleanTextAsWritten("Note:") == ""
    ensures CleanText("Note:") == "Note:"
  {
    var lines := SplitOn('\n', "Note:");
    assert lines == ["Note:"] by {
      SplitJoin('\n', ["Note:"]);
    }
    assert QuoteStart(lines) == 1;
    assert lines[..1] == lines;
    assert !IsBlank("Note:") by { assert !IsSpace("Note:"[0]); }
    assert RStrip("Note:") == "Note:";
    assert TrimLeading(TrimTrailing(lines)) == lines;
    assert TrimTrailing([]) == [];
  }

  // --- the routine itself ---------------------------------------------------

  /** `_remove_empty_trailing_lines_till_text`: deletes blank lines from the end, stopping at text. */
  method RemoveEmptyTrailingLines(lines: seq<string>) returns (r: seq<string>)
    ensures r == TrimTrailing(lines)
  {
    r := lines;
    if r == [] {
      return;
    }
    var index := |r|;
    while index > 0
      invariant 0 <= index <= |lines|
      invariant r == lines[..index]
      invariant TrimTrailing(r) == TrimTrailing(lines)
    {
      if IsBlank(r[index - 1]) {
        r := r[..index - 1];
        index := index - 1;
      } else {
        break;
      }
    }
  }

  /** `clean_reply_message_quotation`, with `had_reply` as its comment intends. */
  method CleanReplyMessageQuotation(text: string) returns (cleaned: string)
    ensures cleaned == CleanText(text)
  {
    var hadReply := false;
    var lines := SplitOn('\n', text);
    var cleanLines: seq<string> := [];
    var i := 0;
    while i < |lines|
      invariant i <= QuoteStart(lines)
      invariant cleanLines == lines[..i]
    {
      if StartsWithQuote(lines[i]) {
        break;
      }
      cleanLines := cleanLines + [lines[i]];
      i := i + 1;
    }
    assert cleanLines == lines[..QuoteStart(lines)];
    if |cleanLines| < |lines| {
      hadReply := true;
    }
    cleanLines := RemoveEmptyTrailingLines(cleanLines);
    var reversed := RemoveEmptyTrailingLines(Reverse(cleanLines));
    TrimLeadingByReversal(cleanLines);
    cleanLines := Reverse(reversed);
    if cleanLines != [] && hadReply {
      if EndsWithColonStripped(cleanLines[|cleanLines| - 1]) {
        cleanLines := cleanLines[..|cleanLines| - 1];
        cleanLines := RemoveEmptyTrailingLines(cleanLines);
      }
    }
    cleaned := JoinWith('\n', cleanLines);
  }
}
