/**
 The rule language of backend pools (src/backend_pool_matcher.rs): the matcher tree, its
 boolean meaning, and the PEG parser that reads a rule.

 A parser takes the remaining input and either fails or returns a value together with what it
 left unread. Ordered choice keeps the first success and never comes back to it; repetition is
 greedy. Both are the semantics of the `pom` combinators the program is written in.
 */
module MatcherParser {
  import opened Wrappers

  datatype Matcher =
    | Host(host: string)
    | HostRegexp(hostRegex: string)
    | Method(verb: string)
    | Path(path: string)
    | PathRegexp(pathRegex: string)
    | Query(key: string, value: string)
    | And(left: Matcher, right: Matcher)
    | Or(left: Matcher, right: Matcher)

  /** The judgements the program delegates to the `regex` and `http` crates. */
  datatype Library = Library(
    regexValid: string -> bool,
    methodValid: string -> bool,
    regexMatches: (string, string) -> bool)

  /** A header value: its text, and whether `to_str` accepts it (visible ASCII). */
  datatype HeaderText = HeaderText(text: string, visible: bool)

  /** The parts of a request that a matcher looks at. */
  datatype Request = Request(host: Option<HeaderText>, verb: string, path: string, query: map<string, string>)

  predicate Matches(lib: Library, m: Matcher, request: Request) {
    match m
    case Host(h) => request.host.Some? && request.host.value.text == h
    case HostRegexp(r) =>
      request.host.Some? && request.host.value.visible && lib.regexMatches(r, request.host.value.text)
    case Method(v) => request.verb == v
    case Path(p) => request.path == p
    case PathRegexp(r) => lib.regexMatches(r, request.path)
    case Query(k, v) => k in request.query && request.query[k] == v
    case And(l, r) => Matches(lib, l, request) && Matches(lib, r, request)
    case Or(l, r) => Matches(lib, l, request) || Matches(lib, r, request)
  }

  // ---------------------------------------------------------------- combinators

  datatype Parsed<+T> = Fail | Ok(value: T, rest: string) {
    predicate IsFailure() { Fail? }

    function PropagateFailure<U>(): Parsed<U>
      requires Fail?
    {
      Fail
    }

    function Extract(): (T, string)
      requires Ok?
    {
      (value, rest)
    }
  }

  function Sym(c: char, s: string): Parsed<char> {
    if s != [] && s[0] == c then Ok(c, s[1..]) else Fail
  }

  function Tag(t: string, s: string): Parsed<string> {
    if t <= s then Ok(t, s[|t|..]) else Fail
  }

  function OneOf(cs: string, s: string): Parsed<char> {
    if s != [] && s[0] in cs then Ok(s[0], s[1..]) else Fail
  }

  function NoneOf(cs: string, s: string): Parsed<char> {
    if s != [] && s[0] !in cs then Ok(s[0], s[1..]) else Fail
  }

  /** Greedy repetition of a parser that consumes input whenever it succeeds. */
  function Repeat<T>(p: string -> Parsed<T>, s: string): (r: (seq<T>, string))
    ensures |r.1| <= |s|
    decreases |s|
  {
    var first := p(s);
    if first.Ok? && |first.rest| < |s| then
      var (items, rest) := Repeat(p, first.rest);
      ([first.value] + items, rest)
    else ([], s)
  }

  function Concat(ss: seq<string>): string {
    if ss == [] then "" else ss[0] + Concat(ss[1..])
  }

  // ---------------------------------------------------------------- the rule grammar

  const BLANKS := " \t\r\n"

  function Blank(s: string): Parsed<char> { OneOf(BLANKS, s) }

  function Space(s: string): (rest: string)
    ensures |rest| <= |s|
  {
    Repeat(Blank, s).1
  }

  function SpecialChar(s: string): Parsed<char> {
    var escaped: Parsed<char> :=
      var (_, s1) :- Sym('\\', s);
      Sym('\'', s1);
    if escaped.Ok? then escaped else Sym('\\', s)
  }

  function LiteralChar(s: string): Parsed<char> {
    var plain := NoneOf("\\\'", s);
    if plain.Ok? then plain else SpecialChar(s)
  }

  function LiteralRun(s: string): Parsed<string> {
    var (chars, rest) := Repeat(LiteralChar, s);
    if |chars| >= 1 then Ok(chars, rest) else Fail
  }

  /** `string()`: a quoted literal; backslash-quote stands for a quote. */
  function Literal(s: string): (r: Parsed<string>)
    ensures r.Ok? ==> |r.rest| < |s|
  {
    var (_, s1) :- Sym('\'', s);
    var (runs, s2) := Repeat(LiteralRun, s1);
    var (_, s3) :- Sym('\'', s2);
    Ok(Concat(runs), s3)
  }

  /** The five matchers that take one literal. */
  datatype Kind = KHost | KHostRegexp | KMethod | KPath | KPathRegexp

  function KindTag(k: Kind): (t: string)
    ensures |t| > 0
  {
    match k
    case KHost => "Host("
    case KHostRegexp => "HostRegexp("
    case KMethod => "Method("
    case KPath => "Path("
    case KPathRegexp => "PathRegexp("
  }

  /** `map` and `convert`: a regex or method that its crate refuses makes the alternative fail. */
  function Convert(lib: Library, k: Kind, arg: string): Option<Matcher> {
    match k
    case KHost => Some(Host(arg))
    case KHostRegexp => if lib.regexValid(arg) then Some(HostRegexp(arg)) else None
    case KMethod => if lib.methodValid(arg) then Some(Method(arg)) else None
    case KPath => Some(Path(arg))
    case KPathRegexp => if lib.regexValid(arg) then Some(PathRegexp(arg)) else None
  }

  function ParseCall(lib: Library, k: Kind, s: string): (r: Parsed<Matcher>)
    ensures r.Ok? ==> |r.rest| < |s|
  {
    var (_, s1) :- Tag(KindTag(k), s);
    var (arg, s2) :- Literal(s1);
    var (_, s3) :- Sym(')', s2);
    var m := Convert(lib, k, arg);
    if m.Some? then Ok(m.value, s3) else Fail
  }

  function ParseQuery(s: string): (r: Parsed<Matcher>)
    ensures r.Ok? ==> |r.rest| < |s|
  {
    var (_, s1) :- Tag("Query(", s);
    var (key, s2) :- Literal(s1);
    var (_, s3) :- Sym(',', Space(s2));
    var (value, s4) :- Literal(Space(s3));
    var (_, s5) :- Sym(')', s4);
    Ok(Query(key, value), s5)
  }

  datatype Op = AndOp | OrOp

  function OpTag(op: Op): (t: string)
    ensures |t| == 2
  {
    if op.AndOp? then "&&" else "||"
  }

  function Join(op: Op, l: Matcher, r: Matcher): Matcher {
    if op.AndOp? then And(l, r) else Or(l, r)
  }

  /** `and()` and `or()`. */
  function ParseBinary(lib: Library, op: Op, s: string): (r: Parsed<Matcher>)
    ensures r.Ok? ==> |r.rest| < |s|
    decreases |s|, 2
  {
    var (left, s1) :- ParseValue(lib, s);
    var (_, s2) :- Tag(OpTag(op), Space(s1));
    var (right, s3) :- ParseValue(lib, Space(s2));
    Ok(Join(op, left, right), s3)
  }

  function ParseChained(lib: Library, s: string): (r: Parsed<Matcher>)
    ensures r.Ok? ==> |r.rest| < |s|
    decreases |s|, 3
  {
    var conjunction := ParseBinary(lib, AndOp, s);
    if conjunction.Ok? then conjunction else ParseBinary(lib, OrOp, s)
  }

  function ParseBrackets(lib: Library, s: string): (r: Parsed<Matcher>)
    ensures r.Ok? ==> |r.rest| < |s|
    decreases |s|, 0
  {
    var (_, s1) :- Sym('(', s);
    var (m, s2) :- ParseTop(lib, Space(s1));
    var (_, s3) :- Sym(')', Space(s2));
    Ok(m, s3)
  }

  function ParseValue(lib: Library, s: string): (r: Parsed<Matcher>)
    ensures r.Ok? ==> |r.rest| < |s|
    decreases |s|, 1
  {
    var host := ParseCall(lib, KHost, s);
    if host.Ok? then host else
    var hostRegexp := ParseCall(lib, KHostRegexp, s);
    if hostRegexp.Ok? then hostRegexp else
    var verb := ParseCall(lib, KMethod, s);
    if verb.Ok? then verb else
    var path := ParseCall(lib, KPath, s);
    if path.Ok? then path else
    var pathRegexp := ParseCall(lib, KPathRegexp, s);
    if pathRegexp.Ok? then pathRegexp else
    var query := ParseQuery(s);
    if query.Ok? then query else ParseBrackets(lib, s)
  }

  /** `top_level_expression()`, which is also what stands between brackets. */
  function ParseTop(lib: Library, s: string): (r: Parsed<Matcher>)
    ensures r.Ok? ==> |r.rest| < |s|
    decreases |s|, 4
  {
    var chained := ParseChained(lib, s);
    if chained.Ok? then chained else ParseValue(lib, s)
  }

  /** `parser()`: leading blanks, one expression, then the end of the text. */
  function ParseRule(lib: Library, s: string): Option<Matcher> {
    var top := ParseTop(lib, Space(s));
    if top.Ok? && top.rest == "" then Some(top.value) else None
  }
}
