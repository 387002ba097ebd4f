/**
 What the rule language is, said without a parser: concrete syntax trees, the text each tree
 spells and the matcher it stands for. Keywords, operators, blanks and meanings are written out
 here again and share nothing with the parser. The theorems equate this grammar with `ParseRule`.
 */
module MatcherGrammar {
  import opened Wrappers
  import opened MatcherParser

  // ---------------------------------------------------------------- the grammar

  predicate IsBlank(c: char) {
    c == ' ' || c == '\t' || c == '\r' || c == '\n'
  }

  ghost predicate AllBlank(w: string) {
    forall i :: 0 <= i < |w| ==> IsBlank(w[i])
  }

  function Keyword(k: Kind): string {
    match k
    case KHost => "Host("
    case KMethod => "Method("
    case KPath => "Path("
    case KHostRegexp => "HostRegexp("
    case KPathRegexp => "PathRegexp("
  }

  function OpText(op: Op): string {
    match op
    case AndOp => "&&"
    case OrOp => "||"
  }

  function EscapeChar(c: char): string {
    if c == '\'' then "\\'" else [c]
  }

  function Escape(t: string): string {
    if t == "" then "" else EscapeChar(t[0]) + Escape(t[1..])
  }

  predicate EndsInBackslash(t: string) {
    t != "" && t[|t| - 1] == '\\'
  }

  function Quote(t: string): string {
    "'" + Escape(t) + "'"
  }

  datatype ValueTree =
    | Call(kind: Kind, arg: string)
    | QueryCall(key: string, w1: string, w2: string, value: string)
    | Brackets(w1: string, body: ExprTree, w2: string)

  datatype ExprTree =
    | Single(only: ValueTree)
    | Chain(left: ValueTree, w1: string, op: Op, w2: string, right: ValueTree)

  /** The text a tree spells. */
  function ValueText(v: ValueTree): string {
    match v
    case Call(k, arg) => Keyword(k) + (Quote(arg) + ")")
    case QueryCall(k, w1, w2, x) => "Query(" + (Quote(k) + (w1 + ("," + (w2 + (Quote(x) + ")")))))
    case Brackets(w1, body, w2) => "(" + (w1 + (ExprText(body) + (w2 + ")")))
  }

  function ExprText(e: ExprTree): string {
    match e
    case Single(v) => ValueText(v)
    case Chain(l, w1, op, w2, r) => ValueText(l) + (w1 + (OpText(op) + (w2 + ValueText(r))))
  }

  /** A method or a regular expression must be one its crate accepts. */
  predicate CallOk(lib: Library, k: Kind, arg: string) {
    && (k == KMethod ==> lib.methodValid(arg))
    && (k in {KHostRegexp, KPathRegexp} ==> lib.regexValid(arg))
  }

  function CallMeaning(k: Kind, arg: string): Matcher {
    match k
    case KHost => Host(arg)
    case KMethod => Method(arg)
    case KPath => Path(arg)
    case KHostRegexp => HostRegexp(arg)
    case KPathRegexp => PathRegexp(arg)
  }

  /** Trees that may occur: blanks are blank, literals can be quoted, the crates accept their arguments. */
  ghost predicate ValueOk(lib: Library, v: ValueTree) {
    match v
    case Call(k, arg) => !EndsInBackslash(arg) && CallOk(lib, k, arg)
    case QueryCall(k, w1, w2, x) =>
      AllBlank(w1) && AllBlank(w2) && !EndsInBackslash(k) && !EndsInBackslash(x)
    case Brackets(w1, body, w2) => AllBlank(w1) && AllBlank(w2) && ExprOk(lib, body)
  }

  ghost predicate ExprOk(lib: Library, e: ExprTree) {
    match e
    case Single(v) => ValueOk(lib, v)
    case Chain(l, w1, op, w2, r) => ValueOk(lib, l) && AllBlank(w1) && AllBlank(w2) && ValueOk(lib, r)
  }

  /** The matcher a tree stands for: brackets and blanks leave no trace. */
  function ValueMeaning(lib: Library, v: ValueTree): Matcher
    requires ValueOk(lib, v)
  {
    match v
    case Call(k, arg) => CallMeaning(k, arg)
    case QueryCall(k, _, _, x) => Query(k, x)
    case Brackets(_, body, _) => ExprMeaning(lib, body)
  }

  function ExprMeaning(lib: Library, e: ExprTree): Matcher
    requires ExprOk(lib, e)
  {
    match e
    case Single(v) => ValueMeaning(lib, v)
    case Chain(l, _, AndOp, _, r) => And(ValueMeaning(lib, l), ValueMeaning(lib, r))
    case Chain(l, _, OrOp, _, r) => Or(ValueMeaning(lib, l), ValueMeaning(lib, r))
  }

  /** `s` is a rendering of `m`: blanks, then an expression, and nothing after it. */
  ghost predicate Spells(lib: Library, lead: string, e: ExprTree, s: string, m: Matcher) {
    AllBlank(lead) && ExprOk(lib, e) && s == lead + ExprText(e) && ExprMeaning(lib, e) == m
  }

  ghost predicate IsRule(lib: Library, s: string, m: Matcher) {
    exists lead, e :: Spells(lib, lead, e, s, m)
  }

  // ---------------------------------------------------------------- blanks

  lemma {:induction false} SpaceSkipsBlanks(w: string, s: string)
    requires AllBlank(w) && (s == "" || !IsBlank(s[0]))
    ensures Space(w + s) == s
  {
    if w == "" {
      assert w + s == s;
    } else {
      assert (w + s)[1..] == w[1..] + s;
      SpaceSkipsBlanks(w[1..], s);
    }
  }

  lemma {:induction false} SpaceSplits(s: string) returns (w: string)
    ensures AllBlank(w) && s == w + Space(s)
    decreases |s|
  {
    if Blank(s).Ok? {
      var w' := SpaceSplits(s[1..]);
      w := [s[0]] + w';
    } else {
      w := "";
    }
  }

  // ---------------------------------------------------------------- quoted literals

  lemma LiteralCharCases(s: string)
    ensures s == "" || s[0] == '\'' ==> LiteralChar(s) == Fail
    ensures |s| >= 2 && s[0] == '\\' && s[1] == '\'' ==> LiteralChar(s) == Ok('\'', s[2..])
    ensures s != "" && s[0] != '\'' && !(|s| >= 2 && s[0] == '\\' && s[1] == '\'') ==>
      LiteralChar(s) == Ok(s[0], s[1..])
  {
    if |s| >= 2 { assert s[1..][1..] == s[2..]; }
  }

  lemma RepeatStep<T>(p: string -> Parsed<T>, s: string)
    ensures p(s).Ok? && |p(s).rest| < |s| ==>
      Repeat(p, s) == ([p(s).value] + Repeat(p, p(s).rest).0, Repeat(p, p(s).rest).1)
    ensures p(s).Fail? ==> Repeat(p, s) == ([], s)
  {
  }

  /** One escaped character in front of `tail` is read as that character. */
  lemma ReadsOneEscaped(c: char, tail: string)
    requires c == '\\' ==> tail != "" && tail[0] != '\''
    ensures LiteralChar(EscapeChar(c) + tail) == Ok(c, tail)
  {
    var s := EscapeChar(c) + tail;
    LiteralCharCases(s);
    assert c == '\'' ==> s[2..] == tail;
    assert c != '\'' ==> s[1..] == tail;
  }

  lemma EscapeCons(t: string)
    requires t != ""
    ensures Escape(t) == EscapeChar(t[0]) + Escape(t[1..])
  {
  }

  /** Escaping then reading gives the string back, up to the closing quote. */
  lemma {:induction false} ReadsEscaped(t: string, rest: string)
    requires !EndsInBackslash(t) && rest != "" && rest[0] == '\''
    ensures Repeat(LiteralChar, Escape(t) + rest) == (t, rest)
  {
    var s := Escape(t) + rest;
    if t == "" {
      assert s == rest;
      LiteralCharCases(rest);
      RepeatStep(LiteralChar, s);
    } else {
      var tail := Escape(t[1..]) + rest;
      EscapeCons(t);
      assert s == EscapeChar(t[0]) + tail;
      if t[0] == '\\' {
        assert t[1..] != "";
        EscapeCons(t[1..]);
      }
      ReadsOneEscaped(t[0], tail);
      ReadsEscaped(t[1..], rest);
      RepeatStep(LiteralChar, s);
      assert t == [t[0]] + t[1..];
    }
  }

  /** `s` is an escaped string, then its closing quote or nothing at all. */
  ghost predicate EscapedThen(s: string, t: string, rest: string) {
    && s == Escape(t) + rest
    && (rest == "" || rest[0] == '\'')
    && (EndsInBackslash(t) ==> rest == "")
  }

  lemma LiteralCharTakes(s: string)
    ensures var first := LiteralChar(s);
      if first.Ok? then
        && s == EscapeChar(first.value) + first.rest && |first.rest| < |s|
        && (first.value == '\\' ==> first.rest == "" || first.rest[0] != '\'')
      else s == "" || s[0] == '\''
  {
    LiteralCharCases(s);
  }

  lemma EscapedCons(c: char, s': string, t': string, rest: string)
    requires EscapedThen(s', t', rest) && (c == '\\' ==> s' == "" || s'[0] != '\'')
    ensures EscapedThen(EscapeChar(c) + s', [c] + t', rest)
  {
    var t := [c] + t';
    assert t[1..] == t';
    EscapeCons(t);
    assert EscapeChar(c) + s' == Escape(t) + rest;
    if t' == "" { assert s' == rest; }
  }

  /** Whatever the greedy reader takes is the escaped form of what it returns. */
  lemma {:induction false} ReadIsEscaped(s: string)
    ensures EscapedThen(s, Repeat(LiteralChar, s).0, Repeat(LiteralChar, s).1)
    decreases |s|
  {
    LiteralCharTakes(s);
    RepeatStep(LiteralChar, s);
    var first := LiteralChar(s);
    if first.Ok? {
      ReadIsEscaped(first.rest);
      EscapedCons(first.value, first.rest, Repeat(LiteralChar, first.rest).0, Repeat(LiteralChar, first.rest).1);
    }
  }

  lemma ReadOnce(s: string)
    ensures var (t, rest) := Repeat(LiteralChar, s);
      var (runs, rest') := Repeat(LiteralRun, s);
      Concat(runs) == t && rest' == rest
  {
    var (t, rest) := Repeat(LiteralChar, s);
    ReadIsEscaped(s);
    LiteralCharCases(rest);
    RepeatStep(LiteralChar, rest);
    RepeatStep(LiteralRun, rest);
    if t != "" {
      RepeatShrinks(s);
      RepeatStep(LiteralRun, s);
      assert Repeat(LiteralRun, s).0 == [t];
      assert [t][1..] == [];
      assert Concat([t]) == t + "";
    }
  }

  lemma {:induction false} RepeatShrinks(s: string)
    ensures Repeat(LiteralChar, s).0 != "" ==> |Repeat(LiteralChar, s).1| < |s|
  {
  }

  lemma QuoteSplits(t: string, rest: string)
    ensures Quote(t) + rest == "'" + (Escape(t) + ("'" + rest))
  {
  }

  lemma LiteralReads(t: string, rest: string)
    requires !EndsInBackslash(t)
    ensures Literal(Quote(t) + rest) == Ok(t, rest)
  {
    var s1 := Escape(t) + ("'" + rest);
    QuoteSplits(t, rest);
    assert ("'" + s1)[1..] == s1;
    ReadsEscaped(t, "'" + rest);
    ReadOnce(s1);
    assert ("'" + rest)[1..] == rest;
  }

  lemma LiteralRead(s: string)
    requires Literal(s).Ok?
    ensures s == Quote(Literal(s).value) + Literal(s).rest && !EndsInBackslash(Literal(s).value)
  {
    var s1 := s[1..];
    ReadOnce(s1);
    ReadIsEscaped(s1);
    var (t, s2) := Repeat(LiteralChar, s1);
    var rest := s2[1..];
    assert s2 == "'" + rest && s == "'" + s1;
    QuoteSplits(t, rest);
  }

  /** `string()` accepts exactly the quoted forms of the strings that do not end in a backslash. */
  lemma LiteralExact(s: string, t: string, rest: string)
    ensures Literal(s) == Ok(t, rest) <==> s == Quote(t) + rest && !EndsInBackslash(t)
  {
    if s == Quote(t) + rest && !EndsInBackslash(t) {
      LiteralReads(t, rest);
    }
    if Literal(s).Ok? {
      LiteralRead(s);
    }
  }

  /** No escaped string starts with a bare quote, so an escaped quote is told apart by its second character. */
  lemma EscapedQuoteDiffers(t: string, u: string)
    requires t != "" && t[0] == '\'' && u != "" && u[0] != '\''
    ensures Escape(t) != Escape(u)
  {
    EscapeCons(t);
    EscapeCons(u);
    assert Escape(t)[1] == '\'';
    if u[1..] != "" {
      EscapeCons(u[1..]);
      assert Escape(u)[1] == Escape(u[1..])[0];
    }
  }

  /** Escaping is injective, so a literal's text and its value determine each other. */
  lemma {:induction false} EscapeInjective(t: string, u: string)
    requires Escape(t) == Escape(u)
    ensures t == u
    decreases |t|
  {
    if t != "" && u != "" {
      EscapeCons(t);
      EscapeCons(u);
      if t[0] == '\'' && u[0] != '\'' { EscapedQuoteDiffers(t, u); }
      if u[0] == '\'' && t[0] != '\'' { EscapedQuoteDiffers(u, t); }
      var n := |EscapeChar(t[0])|;
      assert Escape(t[1..]) == Escape(t)[n..] == Escape(u[1..]);
      EscapeInjective(t[1..], u[1..]);
      assert t == [t[0]] + t[1..] && u == [u[0]] + u[1..];
    }
  }
}
