/**
 What a language gives the lexer of `src/lexer.c`: its tables as it lists them, and the
 same tables with the order taken out.
*/
module LexConfig {
  import opened Options
  import opened Machine

  // ----- tokens and diagnostics

  const INVALID: nat := 0
  const EOF: nat := 1
  const IDENT: nat := 2
  const KEYWORD: nat := 3
  const INT: nat := 4
  const FLOAT: nat := 5
  const STRING: nat := 6
  const CHAR: nat := 7
  const OP: nat := 8
  const PUNCT: nat := 9
  const NEWLINE: nat := 10
  const INDENT: nat := 11
  const DEDENT: nat := 12
  const COMMENT: nat := 13
  const USER_BASE: nat := 256

  datatype Token = Token(kind: nat, start: nat, end: nat, v: nat)

  datatype Message =
    | UnknownCharacter
    | MalformedNumber
    | UnterminatedString
    | UnterminatedComment
    | UnterminatedInterpolation
    | InterpolationTooDeep
    | ExpectedIdentifier
    | InvalidEscape
    | InvalidUtf8
    | DisallowedIndentUnit
    | IndentationTooDeep
    | MisalignedDedent
    | TokenLimit

  datatype Diag = Diag(message: Message, start: nat, end: nat)

  // ----- the tables as listed

  /** `lexer_config_valid` refuses empty spellings. */
  type Spelling = s: Bytes | |s| > 0 witness [0]

  datatype Keyword = Keyword(text: Spelling, id: nat)
  datatype Operator = Operator(text: Spelling, id: nat)
  datatype CommentRule = CommentRule(open: Spelling, close: Spelling, nest: bool, isDoc: bool)

  /** A string rule but for its opener and its escape table. `interpOpen` is absent when NULL or empty. */
  datatype StringStyle = StringStyle(
    close: Spelling, raw: bool, template: bool, triple: bool, multiline: bool, isChar: bool, isIdent: bool,
    interpOpen: Option<Spelling>, interpClose: Option<Bytes>,
    fragmentKind: nat, interpOpenKind: nat, interpCloseKind: nat, bareIdentKind: nat)

  datatype StringRule = StringRule(open: Spelling, style: StringStyle, escapes: seq<Byte>)

  datatype Tables = Tables(
    keywords: seq<Keyword>, softKeywords: seq<nat>, operators: seq<Operator>,
    comments: seq<CommentRule>, strings: seq<StringRule>, suffixes: seq<Bytes>)

  // ----- everything that is not a table

  datatype IndentUnit = Spaces | Tabs | Both
  datatype Offside = Offside(unit: IndentUnit, dedentOnEqual: bool)
  datatype AutoSemi = AutoSemi(isTerminating: Token -> bool, emitKind: nat, emitV: nat)

  datatype NumberStyle = NumberStyle(
    hex: bool, oct: bool, bin: bool, underscores: bool, float: bool, exponent: bool, leadingDot: bool,
    suffixBoundary: bool, strict: bool)

  datatype Policy = Policy(
    isIdentStart: bv32 -> bool, isIdentCont: bv32 -> bool, numbers: NumberStyle,
    offside: Option<Offside>, autoSemi: Option<AutoSemi>, newlines: bv32,
    keepDoc: bool, keepAll: bool, emitNewlines: bool)

  // ----- the tables without their order

  datatype CommentStyle = CommentStyle(close: Spelling, nest: bool, isDoc: bool)
  datatype StringEntry = StringEntry(style: StringStyle, escapes: set<Byte>)

  /** A spelling listed twice means what its first entry says. */
  datatype Lang = Lang(
    policy: Policy, keywords: map<Bytes, nat>, soft: set<nat>, operators: map<Bytes, nat>,
    comments: map<Bytes, CommentStyle>, lineOpens: set<Bytes>, strings: map<Bytes, StringEntry>,
    suffixes: set<Bytes>)

  const LINE_END: Bytes := [0x0A]

  /** One line of a table: a spelling and what it stands for. */
  datatype Entry<V> = Entry(text: Bytes, value: V)

  function FirstWins<V>(t: seq<Entry<V>>): map<Bytes, V> {
    if t == [] then map[] else FirstWins(t[1..])[t[0].text := t[0].value]
  }

  function KeywordEntries(t: seq<Keyword>): seq<Entry<nat>> {
    seq(|t|, i requires 0 <= i < |t| => Entry(t[i].text, t[i].id))
  }

  function OperatorEntries(t: seq<Operator>): seq<Entry<nat>> {
    seq(|t|, i requires 0 <= i < |t| => Entry(t[i].text, t[i].id))
  }

  function CommentEntries(t: seq<CommentRule>): seq<Entry<CommentStyle>> {
    seq(|t|, i requires 0 <= i < |t| => Entry(t[i].open, CommentStyle(t[i].close, t[i].nest, t[i].isDoc)))
  }

  /** A string rule but for its opener and the order of its escapes. */
  function Unordered(r: StringRule): StringEntry {
    StringEntry(r.style, Elements(r.escapes))
  }

  function StringEntries(t: seq<StringRule>): seq<Entry<StringEntry>> {
    seq(|t|, i requires 0 <= i < |t| => Entry(t[i].open, Unordered(t[i])))
  }

  function Elements<T>(t: seq<T>): set<T> {
    set x | x in t
  }

  /** The openers of the line comments. */
  function LineOpens(t: seq<Entry<CommentStyle>>): set<Bytes> {
    set e | e in t && e.value.close == LINE_END :: e.text
  }

  function Canonical(t: Tables, policy: Policy): (l: Lang)
    ensures l.policy == policy
  {
    Lang(policy, FirstWins(KeywordEntries(t.keywords)), Elements(t.softKeywords),
         FirstWins(OperatorEntries(t.operators)), FirstWins(CommentEntries(t.comments)),
         LineOpens(CommentEntries(t.comments)),
         FirstWins(StringEntries(t.strings)), Elements(t.suffixes) - {[]})
  }

  // ----- order does not matter

  predicate Distinct<V>(t: seq<Entry<V>>) {
    forall i, j :: 0 <= i < j < |t| ==> t[i].text != t[j].text
  }

  lemma {:induction false} EntryOfText<V>(t: seq<Entry<V>>, text: Bytes)
    ensures text in FirstWins(t) <==> exists e :: e in t && e.text == text
    ensures text in FirstWins(t) ==> Entry(text, FirstWins(t)[text]) in t
  {
    if t != [] {
      EntryOfText(t[1..], text);
      assert t == [t[0]] + t[1..];
    }
  }

  /** Entries of distinct spellings mean the same in any order. */
  lemma OrderIsLost<V>(t: seq<Entry<V>>, u: seq<Entry<V>>)
    requires multiset(t) == multiset(u) && Distinct(t)
    ensures FirstWins(t) == FirstWins(u)
  {
    forall e ensures e in t <==> e in u {
      assert e in t <==> e in multiset(t);
    }
    forall text ensures text in FirstWins(t) <==> text in FirstWins(u) {
      EntryOfText(t, text);
      EntryOfText(u, text);
    }
    forall text | text in FirstWins(t) ensures FirstWins(t)[text] == FirstWins(u)[text] {
      EntryOfText(t, text);
      EntryOfText(u, text);
      var i :| 0 <= i < |t| && t[i] == Entry(text, FirstWins(t)[text]);
      var j :| 0 <= j < |t| && t[j] == Entry(text, FirstWins(u)[text]);
    }
  }

  /** The same tables up to the order of their entries, also of the escapes within a string rule. */
  predicate Reordered(t: Tables, u: Tables) {
    && multiset(KeywordEntries(t.keywords)) == multiset(KeywordEntries(u.keywords))
    && multiset(t.softKeywords) == multiset(u.softKeywords)
    && multiset(OperatorEntries(t.operators)) == multiset(OperatorEntries(u.operators))
    && multiset(CommentEntries(t.comments)) == multiset(CommentEntries(u.comments))
    && multiset(StringEntries(t.strings)) == multiset(StringEntries(u.strings))
    && multiset(t.suffixes) == multiset(u.suffixes)
  }

  predicate DistinctSpellings(t: Tables) {
    && Distinct(KeywordEntries(t.keywords))
    && Distinct(OperatorEntries(t.operators))
    && Distinct(CommentEntries(t.comments))
    && Distinct(StringEntries(t.strings))
  }

  lemma SameElements<T>(t: seq<T>, u: seq<T>)
    requires multiset(t) == multiset(u)
    ensures forall x :: x in t <==> x in u
    ensures Elements(t) == Elements(u)
  {
    forall x ensures x in t <==> x in u {
      assert x in t <==> x in multiset(t);
    }
  }

  /** Everything the lexer sees of its tables is the same for every order of their entries. */
  lemma CanonicalIgnoresOrder(t: Tables, u: Tables, policy: Policy)
    requires Reordered(t, u) && DistinctSpellings(t)
    ensures Canonical(t, policy) == Canonical(u, policy)
  {
    hide FirstWins, KeywordEntries, OperatorEntries, CommentEntries, StringEntries, Distinct, Elements, LineOpens;
    OrderIsLost(KeywordEntries(t.keywords), KeywordEntries(u.keywords));
    OrderIsLost(OperatorEntries(t.operators), OperatorEntries(u.operators));
    OrderIsLost(CommentEntries(t.comments), CommentEntries(u.comments));
    OrderIsLost(StringEntries(t.strings), StringEntries(u.strings));
    SameElements(t.softKeywords, u.softKeywords);
    SameElements(t.suffixes, u.suffixes);
    SameOpens(CommentEntries(t.comments), CommentEntries(u.comments));
  }

  lemma SameOpens(t: seq<Entry<CommentStyle>>, u: seq<Entry<CommentStyle>>)
    requires multiset(t) == multiset(u)
    ensures LineOpens(t) == LineOpens(u)
  {
    SameElements(t, u);
  }

  // ----- longest match

  /** The text at `pos` begins with `lit`. */
  predicate Matches(s: Bytes, pos: nat, lit: Bytes) {
    pos + |lit| <= |s| && s[pos..pos + |lit|] == lit
  }

  /** The longest of the spellings, of at most `n` bytes, that the text at `pos` begins with. */
  function LongestUpTo(keys: set<Bytes>, s: Bytes, pos: nat, n: nat): (lit: Option<Bytes>)
    requires pos + n <= |s|
    ensures lit.Some? ==> lit.value in keys && Matches(s, pos, lit.value) && 0 < |lit.value| <= n
    ensures forall k <- keys :: Matches(s, pos, k) && 0 < |k| <= n ==> lit.Some? && |k| <= |lit.value|
  {
    if n == 0 then None
    else if s[pos..pos + n] in keys then Some(s[pos..pos + n])
    else LongestUpTo(keys, s, pos, n - 1)
  }

  function Longest(keys: set<Bytes>, s: Bytes, pos: nat): (lit: Option<Bytes>)
    ensures lit.Some? ==> lit.value in keys && Matches(s, pos, lit.value) && 0 < |lit.value|
    ensures forall k <- keys :: Matches(s, pos, k) && 0 < |k| ==> lit.Some? && |k| <= |lit.value|
  {
    if pos > |s| then None else LongestUpTo(keys, s, pos, |s| - pos)
  }

}
