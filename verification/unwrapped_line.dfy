/** Pre-format tokens, unwrapped lines and formatted excerpts
    (common/formatting/unwrapped_line.cc).

    The token and spacing records of common/formatting/format_token.h are not
    part of this model; only the fields that the modelled code reads are kept.
    A token range is a half-open pair of indices into one token sequence. */
module UnwrappedLines {
  import opened Strings
  import opened VerilogTokens

  /** SpacingOptions: the break decision before a token. */
  datatype SpacingOptions = Undecided | MustAppend | MustWrap | AppendAligned | Preserve

  /** Inter-token information stored before each token. */
  datatype InterTokenInfo = InterTokenInfo(
    spacesRequired: nat,
    breakDecision: SpacingOptions,
    preservedSpaceStart: nat)

  /** A token with its byte offset in the original text and its spacing. */
  datatype PreFormatToken = PreFormatToken(
    tokenEnum: TokenEnum,
    text: string,
    left: nat,
    before: InterTokenInfo)
  {
    /** Byte offset one past the token's last character. */
    function Right(): nat { left + |text| }
  }

  datatype PartitionPolicy = AlwaysExpand | FitOnLineElseExpand | AppendFittingSubPartitions

  /** Name printed for a partition policy. */
  function PolicyName(p: PartitionPolicy): (s: string)
    ensures |s| > 0
  {
    match p
    case AlwaysExpand => "always-expand"
    case FitOnLineElseExpand => "fit-else-expand"
    case AppendFittingSubPartitions => "append-fitting-sub-partitions"
  }

  /** Policy names are distinct, so the name identifies the policy. */
  lemma PolicyNamesDistinct(p: PartitionPolicy, q: PartitionPolicy)
    ensures PolicyName(p) == PolicyName(q) <==> p == q
  {
  }

  /** An unwrapped line: indentation, policy and the token range [begin, end). */
  datatype UnwrappedLine = UnwrappedLine(
    indentation: nat,
    begin: nat,
    end: nat,
    policy: PartitionPolicy)
  {
    predicate Valid() { begin <= end }

    function Size(): int { end - begin }

    predicate IsEmpty() { begin == end }

    /** SpanUpToToken: move the end of the token range. */
    function SpanUpToToken(e: nat): (r: UnwrappedLine)
      ensures r.begin == begin && r.end == e
      ensures r.indentation == indentation && r.policy == policy
    {
      this.(end := e)
    }
  }

  /** SetIndentationSpaces: the source CHECKs that the count is not negative. */
  function SetIndentationSpaces(line: UnwrappedLine, spaces: int): (r: UnwrappedLine)
    requires spaces >= 0
    ensures r.indentation == spaces
    ensures r.begin == line.begin && r.end == line.end && r.policy == line.policy
  {
    line.(indentation := spaces)
  }

  predicate InBounds(line: UnwrappedLine, tokens: seq<PreFormatToken>) {
    line.begin <= line.end <= |tokens|
  }

  /** Texts of the tokens in [begin, end). */
  function TokenTexts(tokens: seq<PreFormatToken>, begin: nat, end: nat): (ts: seq<string>)
    requires begin <= end <= |tokens|
    ensures |ts| == end - begin
    ensures forall i :: 0 <= i < |ts| ==> ts[i] == tokens[begin + i].text
    decreases end - begin
  {
    if begin == end then [] else [tokens[begin].text] + TokenTexts(tokens, begin + 1, end)
  }

  /** Marker character printed once per indentation space. */
  const IndentationMarker: char := '>'

  function Repeat(c: char, n: nat): (s: string)
    ensures |s| == n && forall i :: 0 <= i < n ==> s[i] == c
  {
    if n == 0 then "" else [c] + Repeat(c, n - 1)
  }

  /** AsCode (non-verbose): indentation markers, then the token texts joined
      by single spaces inside brackets. */
  function AsCode(line: UnwrappedLine, tokens: seq<PreFormatToken>): (s: string)
    requires InBounds(line, tokens)
    ensures |s| >= line.indentation + 2
    ensures s[..line.indentation] == Repeat(IndentationMarker, line.indentation)
    ensures s[line.indentation] == '[' && s[|s| - 1] == ']'
  {
    Repeat(IndentationMarker, line.indentation) + "["
      + Join(TokenTexts(tokens, line.begin, line.end), ' ') + "]"
  }

  /** Number of leading `c` characters of `s`. */
  function LeadingCount(s: string, c: char): (n: nat)
    ensures n <= |s|
  {
    if |s| > 0 && s[0] == c then 1 + LeadingCount(s[1..], c) else 0
  }

  /** The printed form gives back the indentation, and, when every token
      text is a non-empty word without spaces, the token texts. */
  lemma {:induction false} AsCodeRecoversLine(line: UnwrappedLine, tokens: seq<PreFormatToken>)
    requires InBounds(line, tokens)
    requires forall i :: line.begin <= i < line.end ==> IsWord(tokens[i].text, ' ')
    ensures LeadingCount(AsCode(line, tokens), IndentationMarker) == line.indentation
    ensures var s := AsCode(line, tokens);
      Split(s[line.indentation + 1 .. |s| - 1], ' ') == TokenTexts(tokens, line.begin, line.end)
  {
    var s := AsCode(line, tokens);
    var body := Join(TokenTexts(tokens, line.begin, line.end), ' ');
    LeadingMarkers(line.indentation, "[" + body + "]");
    assert s == Repeat(IndentationMarker, line.indentation) + ("[" + body + "]");
    assert s[line.indentation + 1 .. |s| - 1] == body;
    SplitJoin(TokenTexts(tokens, line.begin, line.end), ' ');
  }

  lemma {:induction false} LeadingMarkers(n: nat, rest: string)
    requires |rest| > 0 && rest[0] != IndentationMarker
    ensures LeadingCount(Repeat(IndentationMarker, n) + rest, IndentationMarker) == n
  {
    if n > 0 {
      assert (Repeat(IndentationMarker, n) + rest)[1..] == Repeat(IndentationMarker, n - 1) + rest;
      LeadingMarkers(n - 1, rest);
    } else {
      assert Repeat(IndentationMarker, n) + rest == rest;
    }
  }

  /** A token whose spacing has been decided. */
  datatype FormattedToken = FormattedToken(
    text: string,
    spaces: nat,
    breakDecision: SpacingOptions,
    preservedSpaceStart: nat)

  /** The conversion of common/formatting/format_token.cc, reduced to the
      fields kept here: the required spaces become the decided spaces. */
  function ToFormattedToken(t: PreFormatToken): FormattedToken {
    FormattedToken(t.text, t.before.spacesRequired, t.before.breakDecision, t.before.preservedSpaceStart)
  }

  datatype FormattedExcerpt = FormattedExcerpt(indentation: nat, tokens: seq<FormattedToken>)

  /** FormattedExcerpt constructor: one formatted token per line token, in
      order; the first token's spaces carry the line's indentation. */
  function MakeFormattedExcerpt(line: UnwrappedLine, tokens: seq<PreFormatToken>): (x: FormattedExcerpt)
    requires InBounds(line, tokens)
    ensures x.indentation == line.indentation
    ensures |x.tokens| == line.end - line.begin
    ensures forall i :: 0 <= i < |x.tokens| ==> x.tokens[i].text == tokens[line.begin + i].text
    ensures |x.tokens| > 0 ==> x.tokens[0].spaces == line.indentation
    ensures forall i :: 0 < i < |x.tokens| ==> x.tokens[i].spaces == tokens[line.begin + i].before.spacesRequired
    ensures forall i :: 0 <= i < |x.tokens| ==>
      x.tokens[i].breakDecision == tokens[line.begin + i].before.breakDecision
  {
    var converted := ConvertTokens(tokens, line.begin, line.end);
    if |converted| == 0 then FormattedExcerpt(line.indentation, converted)
    else FormattedExcerpt(line.indentation, converted[0 := converted[0].(spaces := line.indentation)])
  }

  function ConvertTokens(tokens: seq<PreFormatToken>, begin: nat, end: nat): (fs: seq<FormattedToken>)
    requires begin <= end <= |tokens|
    ensures |fs| == end - begin
    ensures forall i :: 0 <= i < |fs| ==> fs[i] == ToFormattedToken(tokens[begin + i])
    decreases end - begin
  {
    if begin == end then [] else [ToFormattedToken(tokens[begin])] + ConvertTokens(tokens, begin + 1, end)
  }

  /** Printed whitespace before a formatted token. Its rendering lives in
      common/formatting/format_token.cc, which is not part of this model, so
      it is a parameter; a printed token is this whitespace then its text. */
  type SpacingPrinter = FormattedToken -> string

  function TokenOutput(sp: SpacingPrinter, t: FormattedToken): string {
    sp(t) + t.text
  }

  /** Concatenated output of a run of formatted tokens. */
  function TokensOutput(sp: SpacingPrinter, ts: seq<FormattedToken>): (s: string)
    ensures |ts| > 0 ==> s == TokenOutput(sp, ts[0]) + TokensOutput(sp, ts[1..])
    decreases |ts|
  {
    if |ts| == 0 then "" else TokenOutput(sp, ts[0]) + TokensOutput(sp, ts[1..])
  }

  /** FormattedText: with `indent`, every token with its spacing; without,
      the first token's bare text and the rest with spacing. The source
      dereferences the first token, so the excerpt must be non-empty then. */
  function FormattedText(sp: SpacingPrinter, x: FormattedExcerpt, indent: bool): (s: string)
    requires !indent ==> |x.tokens| > 0
    ensures indent && |x.tokens| > 0 ==> s == sp(x.tokens[0]) + x.tokens[0].text + TokensOutput(sp, x.tokens[1..])
    ensures !indent ==> s == x.tokens[0].text + TokensOutput(sp, x.tokens[1..])
  {
    if indent then TokensOutput(sp, x.tokens)
    else x.tokens[0].text + TokensOutput(sp, x.tokens[1..])
  }

  /** Render: the indented formatted text. */
  function Render(sp: SpacingPrinter, x: FormattedExcerpt): (s: string)
    ensures |x.tokens| > 0 ==> s == sp(x.tokens[0]) + FormattedText(sp, x, false)
    ensures |x.tokens| == 0 ==> s == ""
  {
    FormattedText(sp, x, true)
  }
}
