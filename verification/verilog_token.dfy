/** Classification of Verilog lexer tokens into formatting categories
    (verilog/formatting/verilog_token.cc).

    Token enums follow the lex/yacc convention: values up to 257 are single
    characters (their ASCII code), larger values are named tokens generated by
    the parser. The numeric values of named tokens are generated and not known
    here, so named tokens are a datatype, and the large enum-to-category table
    is a finite map supplied by the caller. */
module VerilogTokens {

  /** Largest enum value that still denotes a single-character token. */
  const MaxCharToken: nat := 257

  type CharCode = c: nat | c <= MaxCharToken

  /** The named (generated) tokens that the modelled predicates mention;
      every other named token is `OtherNamed`. */
  datatype NamedToken =
    | TK_COMMENT_BLOCK | TK_EOL_COMMENT
    | TK_NAND | TK_NOR | TK_NXOR | TK_INCR | TK_DECR | TK_SCOPE_RES
    | PP_ifdef | PP_ifndef | PP_elsif | PP_else | PP_endif
    | PP_define | PP_include | PP_undef
    | TK_end | TK_endcase | TK_endgroup | TK_endpackage | TK_endgenerate
    | TK_endinterface | TK_endfunction | TK_endtask | TK_endproperty
    | TK_endclocking | TK_endclass | TK_endmodule
    | TK_join | TK_join_any | TK_join_none
    | OtherNamed(id: nat)

  datatype TokenEnum = Char(code: CharCode) | Named(name: NamedToken)

  datatype FormatTokenType =
    | unknown | identifier | keyword | numeric_literal | numeric_base
    | string_literal | unary_operator | binary_operator | hierarchy
    | edge_descriptor | open_group | close_group | comment_block | eol_comment

  /** The category table for named tokens; absent tokens are `unknown`. */
  type CategoryTable = map<NamedToken, FormatTokenType>

  /** The entries of the source's table that the predicates below agree with,
      and the fact that only the two comment tokens have comment categories. */
  ghost predicate TableAgreesWithSource(table: CategoryTable) {
    && table.Keys >= {TK_COMMENT_BLOCK, TK_EOL_COMMENT, TK_INCR, TK_DECR, TK_NAND, TK_NOR, TK_NXOR, TK_SCOPE_RES}
    && table.Keys >= EndKeywordNames
    && table[TK_COMMENT_BLOCK] == comment_block
    && table[TK_EOL_COMMENT] == eol_comment
    && table[TK_INCR] == unary_operator && table[TK_DECR] == unary_operator
    && table[TK_NAND] == unary_operator && table[TK_NOR] == unary_operator
    && table[TK_NXOR] == binary_operator
    && table[TK_SCOPE_RES] == hierarchy
    && (forall n :: n in table && IsCommentType(table[n]) ==> n == TK_COMMENT_BLOCK || n == TK_EOL_COMMENT)
    && (forall n :: n in EndKeywordNames ==> table[n] == keyword)
  }

  /** Characters spaced as binary operators: arithmetic, bitwise, `?` and `=`. */
  const BinaryOperatorChars: set<char> := {'+', '-', '*', '/', '%', '&', '|', '^', '?', '='}
  const OpenGroupChars: set<char> := {'(', '[', '{'}
  const CloseGroupChars: set<char> := {')', ']', '}'}

  predicate IsCharToken(e: TokenEnum, chars: set<char>) {
    e.Char? && exists c :: c in chars && e.code == c as int
  }

  /** GetFormatTokenType: category of a token enum. */
  function GetFormatTokenType(table: CategoryTable, e: TokenEnum): (t: FormatTokenType)
    ensures e.Named? ==> t == (if e.name in table then table[e.name] else unknown)
    ensures e.Char? ==> (t == binary_operator <==> IsCharToken(e, BinaryOperatorChars))
    ensures e.Char? ==> (t == hierarchy <==> e.code == '.' as int)
    ensures e.Char? ==> (t == open_group <==> IsCharToken(e, OpenGroupChars))
    ensures e.Char? ==> (t == close_group <==> IsCharToken(e, CloseGroupChars))
    ensures e.Char? ==> t in {binary_operator, hierarchy, open_group, close_group, unknown}
  {
    match e
    case Named(n) => if n in table then table[n] else unknown
    case Char(code) =>
      if code == '+' as int || code == '-' as int || code == '*' as int
        || code == '/' as int || code == '%' as int
        || code == '&' as int || code == '|' as int || code == '^' as int then binary_operator
      else if code == '?' as int then binary_operator
      else if code == '=' as int then binary_operator
      else if code == '.' as int then hierarchy
      else if code == '(' as int || code == '[' as int || code == '{' as int then open_group
      else if code == ')' as int || code == ']' as int || code == '}' as int then close_group
      else unknown
  }

  /** IsComment(FormatTokenType). */
  predicate IsCommentType(t: FormatTokenType) {
    t == eol_comment || t == comment_block
  }

  /** IsComment(yytokentype). */
  predicate IsComment(e: TokenEnum) {
    e == Named(TK_COMMENT_BLOCK) || e == Named(TK_EOL_COMMENT)
  }

  /** IsUnaryOperator: the characters + - ~ & ! | ^ and five named operators. */
  predicate IsUnaryOperator(e: TokenEnum) {
    match e
    case Char(code) =>
      code == '+' as int || code == '-' as int || code == '~' as int
      || code == '&' as int || code == '!' as int || code == '|' as int || code == '^' as int
    case Named(n) => n in {TK_NAND, TK_NOR, TK_NXOR, TK_INCR, TK_DECR}
  }

  /** IsPreprocessorControlFlow: the conditional-compilation directives. */
  predicate IsPreprocessorControlFlow(e: TokenEnum) {
    e.Named? && e.name in {PP_ifdef, PP_ifndef, PP_elsif, PP_else, PP_endif}
  }

  /** IsEndKeyword: the twelve `end...` block-closing keywords. */
  predicate IsEndKeyword(e: TokenEnum) {
    e.Named? && e.name in EndKeywordNames
  }

  const EndKeywordNames := {TK_end, TK_endcase, TK_endgroup, TK_endpackage, TK_endgenerate,
                            TK_endinterface, TK_endfunction, TK_endtask, TK_endproperty,
                            TK_endclocking, TK_endclass, TK_endmodule}

  /** The two comment predicates agree through the category table. */
  lemma CommentPredicatesAgree(table: CategoryTable, e: TokenEnum)
    requires TableAgreesWithSource(table)
    ensures IsCommentType(GetFormatTokenType(table, e)) <==> IsComment(e)
  {
  }

  /** The operators + - & | ^ are both unary and spaced as binary operators,
      while ~ and ! are unary operators of unknown category. */
  lemma OperatorsBothUnaryAndBinary(table: CategoryTable, c: char)
    requires c in {'+', '-', '&', '|', '^', '~', '!'}
    ensures IsUnaryOperator(Char(c as int))
    ensures GetFormatTokenType(table, Char(c as int)) == (if c in {'~', '!'} then unknown else binary_operator)
  {
  }

  /** Of the five named unary operators, four are categorised as unary
      operators and the exclusive-nor as a binary operator. */
  lemma NamedUnaryOperatorCategories(table: CategoryTable, n: NamedToken)
    requires TableAgreesWithSource(table)
    requires IsUnaryOperator(Named(n))
    ensures GetFormatTokenType(table, Named(n)) == (if n == TK_NXOR then binary_operator else unary_operator)
  {
  }

  /** Macro definition and file inclusion are not control flow. */
  lemma DefinesAreNotControlFlow()
    ensures !IsPreprocessorControlFlow(Named(PP_define))
    ensures !IsPreprocessorControlFlow(Named(PP_include))
    ensures !IsPreprocessorControlFlow(Named(PP_undef))
    ensures IsPreprocessorControlFlow(Named(PP_else))
  {
  }

  /** The join keywords that close a fork are not end keywords. */
  lemma JoinKeywordsAreNotEndKeywords()
    ensures !IsEndKeyword(Named(TK_join)) && !IsEndKeyword(Named(TK_join_any)) && !IsEndKeyword(Named(TK_join_none))
  {
  }

  /** Every end keyword is a named token classified as keyword; no single
      character is an end keyword. */
  lemma EndKeywordsAreKeywords(table: CategoryTable, e: TokenEnum)
    requires TableAgreesWithSource(table)
    requires IsEndKeyword(e)
    ensures e.Named?
    ensures GetFormatTokenType(table, e) == keyword
  {
  }
}
