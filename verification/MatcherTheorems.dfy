/**
 The parser and the grammar agree, in both directions, on every text. From that: rules are
 unambiguous, printing inverts parsing, values do not look past their own end, and a chain of
 more than two operands needs brackets.
 */
module MatcherTheorems {
  import opened Wrappers
  import opened MatcherParser
  import opened MatcherGrammar

  // ---------------------------------------------------------------- which alternative applies

  lemma TagPrefix(t: string, x: string)
    ensures Tag(t, t + x) == Ok(t, x)
  {
    assert (t + x)[|t|..] == x;
  }

  lemma TagSplits(t: string, s: string)
    requires Tag(t, s).Ok?
    ensures s == t + Tag(t, s).rest
  {
  }

  lemma SymSplits(c: char, s: string)
    requires Sym(c, s).Ok?
    ensures s == [c] + Sym(c, s).rest
  {
  }

  lemma Reassociate(a: string, b: string, c: string)
    ensures (a + b) + c == a + (b + c)
  {
  }

  // How the text of each tree sits in front of what follows it.

  lemma CallSpelling(k: Kind, arg: string, rest: string)
    ensures ValueText(Call(k, arg)) + rest == KindTag(k) + (Quote(arg) + (")" + rest))
  {
    Reassociate(KindTag(k), Quote(arg) + ")", rest);
    Reassociate(Quote(arg), ")", rest);
  }

  lemma QuerySpelling(k: string, w1: string, w2: string, x: string, rest: string)
    ensures ValueText(QueryCall(k, w1, w2, x)) + rest
         == "Query(" + (Quote(k) + (w1 + ("," + (w2 + (Quote(x) + (")" + rest))))))
  {
    var t5 := Quote(x) + ")";
    var t4 := w2 + t5;
    var t3 := "," + t4;
    var t2 := w1 + t3;
    var t1 := Quote(k) + t2;
    Reassociate("Query(", t1, rest);
    Reassociate(Quote(k), t2, rest);
    Reassociate(w1, t3, rest);
    Reassociate(",", t4, rest);
    Reassociate(w2, t5, rest);
    Reassociate(Quote(x), ")", rest);
  }

  lemma BracketsSpelling(w1: string, body: ExprTree, w2: string, rest: string)
    ensures ValueText(Brackets(w1, body, w2)) + rest
         == "(" + (w1 + (ExprText(body) + (w2 + (")" + rest))))
  {
    var t3 := w2 + ")";
    var t2 := ExprText(body) + t3;
    var t1 := w1 + t2;
    Reassociate("(", t1, rest);
    Reassociate(w1, t2, rest);
    Reassociate(ExprText(body), t3, rest);
    Reassociate(w2, ")", rest);
  }

  lemma ChainSpelling(l: ValueTree, w1: string, op: Op, w2: string, r: ValueTree, rest: string)
    ensures ExprText(Chain(l, w1, op, w2, r)) + rest
         == ValueText(l) + (w1 + (OpTag(op) + (w2 + (ValueText(r) + rest))))
  {
    var t3 := w2 + ValueText(r);
    var t2 := OpTag(op) + t3;
    var t1 := w1 + t2;
    Reassociate(ValueText(l), t1, rest);
    Reassociate(w1, t2, rest);
    Reassociate(OpTag(op), t3, rest);
    Reassociate(w2, ValueText(r), rest);
  }

  lemma OtherTagFails(k: Kind, k': Kind, x: string)
    requires k != k'
    ensures Tag(KindTag(k'), KindTag(k) + x) == Fail
  {
    var a, b := KindTag(k), KindTag(k');
    var i := if a[0] == b[0] then 4 else 0;
    assert (a + x)[i] == a[i] != b[i];
  }

  /** Which alternatives of `value()` can succeed is decided by the first character. */
  lemma CallsNeedLetter(lib: Library, s: string, k: Kind)
    requires s == "" || s[0] in "(Q"
    ensures ParseCall(lib, k, s) == Fail
  {
    assert KindTag(k)[0] !in "(Q";
  }

  lemma QueryNeedsQ(s: string)
    requires s == "" || s[0] != 'Q'
    ensures ParseQuery(s) == Fail
  {
    assert "Query("[0] == 'Q';
  }

  lemma CallAlone(lib: Library, k: Kind, x: string)
    ensures var s := KindTag(k) + x;
      ParseValue(lib, s) == ParseCall(lib, k, s) || ParseCall(lib, k, s).Fail?
  {
    var s := KindTag(k) + x;
    forall k' | k' != k ensures ParseCall(lib, k', s) == Fail {
      OtherCallFails(lib, k, k', x);
    }
  }

  lemma OtherCallFails(lib: Library, k: Kind, k': Kind, x: string)
    requires k != k'
    ensures ParseCall(lib, k', KindTag(k) + x) == Fail
  {
    OtherTagFails(k, k', x);
  }

  lemma HeadNotBlank(v: ValueTree)
    ensures ValueText(v) != "" && !IsBlank(ValueText(v)[0])
  {
  }

  lemma ExprHeadNotBlank(e: ExprTree)
    ensures ExprText(e) != "" && !IsBlank(ExprText(e)[0])
  {
    HeadNotBlank(if e.Single? then e.only else e.left);
  }

  // ---------------------------------------------------------------- every tree is read back

  /** No operator follows, so a single value here is not the start of a chain. */
  predicate NoOperator(rest: string) {
    Tag("&&", Space(rest)).Fail? && Tag("||", Space(rest)).Fail?
  }

  lemma CallComplete(lib: Library, k: Kind, arg: string, rest: string)
    requires ValueOk(lib, Call(k, arg))
    ensures ParseValue(lib, ValueText(Call(k, arg)) + rest) == Ok(ValueMeaning(lib, Call(k, arg)), rest)
  {
    var s := ValueText(Call(k, arg)) + rest;
    var s1 := Quote(arg) + (")" + rest);
    CallSpelling(k, arg, rest);
    TagPrefix(KindTag(k), s1);
    LiteralExact(s1, arg, ")" + rest);
    CallAlone(lib, k, s1);
  }

  lemma QueryReads(key: string, w1: string, w2: string, value: string, rest: string)
    requires AllBlank(w1) && AllBlank(w2) && !EndsInBackslash(key) && !EndsInBackslash(value)
    ensures ParseQuery(ValueText(QueryCall(key, w1, w2, value)) + rest) == Ok(Query(key, value), rest)
  {
    var s4 := Quote(value) + (")" + rest);
    var s2 := w1 + ("," + (w2 + s4));
    QuerySpelling(key, w1, w2, value, rest);
    TagPrefix("Query(", Quote(key) + s2);
    LiteralReads(key, s2);
    SpaceSkipsBlanks(w1, "," + (w2 + s4));
    assert ("," + (w2 + s4))[1..] == w2 + s4;
    SpaceSkipsBlanks(w2, s4);
    LiteralReads(value, ")" + rest);
    assert (")" + rest)[1..] == rest;
  }

  lemma QueryComplete(lib: Library, v: ValueTree, rest: string)
    requires v.QueryCall? && ValueOk(lib, v)
    ensures ParseValue(lib, ValueText(v) + rest) == Ok(ValueMeaning(lib, v), rest)
  {
    var s := ValueText(v) + rest;
    QueryReads(v.key, v.w1, v.w2, v.value, rest);
    assert s[0] == 'Q';
    forall k ensures ParseCall(lib, k, s) == Fail { CallsNeedLetter(lib, s, k); }
  }

  /** Brackets around what the top level reads. */
  lemma BracketsRead(lib: Library, w1: string, text: string, m: Matcher, w2: string, rest: string)
    requires AllBlank(w1) && AllBlank(w2) && text != "" && !IsBlank(text[0])
    requires ParseTop(lib, text + (w2 + (")" + rest))) == Ok(m, w2 + (")" + rest))
    ensures ParseValue(lib, "(" + (w1 + (text + (w2 + (")" + rest))))) == Ok(m, rest)
  {
    var s1 := w1 + (text + (w2 + (")" + rest)));
    var s := "(" + s1;
    assert s[1..] == s1;
    SpaceSkipsBlanks(w1, text + (w2 + (")" + rest)));
    SpaceSkipsBlanks(w2, ")" + rest);
    assert (")" + rest)[1..] == rest;
    assert ParseBrackets(lib, s) == Ok(m, rest);
    forall k ensures ParseCall(lib, k, s) == Fail { CallsNeedLetter(lib, s, k); }
    QueryNeedsQ(s);
  }

  /** A value's text is read whole, with the same result, whatever follows it. */
  lemma {:induction false} ValueComplete(lib: Library, v: ValueTree, rest: string)
    requires ValueOk(lib, v)
    ensures ParseValue(lib, ValueText(v) + rest) == Ok(ValueMeaning(lib, v), rest)
    decreases v
  {
    match v
    case Call(k, arg) => CallComplete(lib, k, arg, rest);
    case QueryCall(_, _, _, _) => QueryComplete(lib, v, rest);
    case Brackets(w1, body, w2) =>
      BracketsSpelling(w1, body, w2, rest);
      ExprHeadNotBlank(body);
      SpaceSkipsBlanks(w2, ")" + rest);
      ExprComplete(lib, body, w2 + (")" + rest));
      BracketsRead(lib, w1, ExprText(body), ExprMeaning(lib, body), w2, rest);
  }

  lemma {:induction false} ExprComplete(lib: Library, e: ExprTree, rest: string)
    requires ExprOk(lib, e)
    requires e.Single? ==> NoOperator(rest)
    ensures ParseTop(lib, ExprText(e) + rest) == Ok(ExprMeaning(lib, e), rest)
    decreases e
  {
    match e
    case Single(v) =>
      ValueComplete(lib, v, rest);
      BinaryNeedsOperator(lib, AndOp, ValueText(v) + rest);
      BinaryNeedsOperator(lib, OrOp, ValueText(v) + rest);
    case Chain(l, w1, op, w2, r) =>
      var s3 := ValueText(r) + rest;
      var s1 := w1 + (OpTag(op) + (w2 + s3));
      ChainSpelling(l, w1, op, w2, r, rest);
      ValueComplete(lib, l, s1);
      ValueComplete(lib, r, rest);
      HeadNotBlank(r);
      BlanksThenOperator(op, w1, w2 + s3);
      SpaceSkipsBlanks(w2, s3);
      BinaryReads(lib, op, ValueText(l) + s1, ValueMeaning(lib, l), s1, w2 + s3, ValueMeaning(lib, r), rest);
  }

  lemma BinaryReads(lib: Library, op: Op, s: string, l: Matcher, s1: string, s2: string, r: Matcher, rest: string)
    requires ParseValue(lib, s) == Ok(l, s1)
    requires forall op' :: Tag(OpTag(op'), Space(s1)) == if op' == op then Ok(OpTag(op), s2) else Fail
    requires ParseValue(lib, Space(s2)) == Ok(r, rest)
    ensures ParseTop(lib, s) == Ok(Join(op, l, r), rest)
  {
    assert ParseBinary(lib, op, s) == Ok(Join(op, l, r), rest);
    if op.OrOp? {
      BinaryNeedsOperator(lib, AndOp, s);
    }
  }

  lemma BlanksThenOperator(op: Op, w: string, x: string)
    requires AllBlank(w)
    ensures var s := Space(w + (OpTag(op) + x));
      forall op' :: Tag(OpTag(op'), s) == if op' == op then Ok(OpTag(op), x) else Fail
  {
    SpaceSkipsBlanks(w, OpTag(op) + x);
    TagPrefix(OpTag(op), x);
    forall op' | op' != op ensures Tag(OpTag(op'), OpTag(op) + x) == Fail {
      assert OpTag(op')[0] != (OpTag(op) + x)[0];
    }
  }

  lemma BinaryNeedsOperator(lib: Library, op: Op, s: string)
    requires ParseValue(lib, s).Ok? && Tag(OpTag(op), Space(ParseValue(lib, s).rest)).Fail?
    ensures ParseBinary(lib, op, s) == Fail
  {
  }

  // ---------------------------------------------------------------- everything read is a tree

  lemma CallSound(lib: Library, k: Kind, s: string) returns (v: ValueTree)
    requires ParseCall(lib, k, s).Ok?
    ensures var p := ParseCall(lib, k, s);
      ValueOk(lib, v) && s == ValueText(v) + p.rest && ValueMeaning(lib, v) == p.value
  {
    var s1 := Tag(KindTag(k), s).rest;
    TagSplits(KindTag(k), s);
    var lit := Literal(s1);
    LiteralExact(s1, lit.value, lit.rest);
    SymSplits(')', lit.rest);
    v := Call(k, lit.value);
    CallSpelling(k, lit.value, Sym(')', lit.rest).rest);
  }

  lemma QuerySound(lib: Library, s: string) returns (v: ValueTree)
    requires ParseQuery(s).Ok?
    ensures var p := ParseQuery(s);
      ValueOk(lib, v) && s == ValueText(v) + p.rest && ValueMeaning(lib, v) == p.value
  {
    var s1 := Tag("Query(", s).rest;
    TagSplits("Query(", s);
    var key := Literal(s1);
    LiteralExact(s1, key.value, key.rest);
    var w1 := SpaceSplits(key.rest);
    var comma := Sym(',', Space(key.rest));
    SymSplits(',', Space(key.rest));
    var w2 := SpaceSplits(comma.rest);
    var value := Literal(Space(comma.rest));
    LiteralExact(Space(comma.rest), value.value, value.rest);
    SymSplits(')', value.rest);
    v := QueryCall(key.value, w1, w2, value.value);
    QuerySpelling(key.value, w1, w2, value.value, Sym(')', value.rest).rest);
  }

  lemma {:induction false} BinarySound(lib: Library, op: Op, s: string) returns (e: ExprTree)
    requires ParseBinary(lib, op, s).Ok?
    ensures var p := ParseBinary(lib, op, s);
      e.Chain? && ExprOk(lib, e) && s == ExprText(e) + p.rest && ExprMeaning(lib, e) == p.value
    decreases |s|, 2
  {
    var left := ParseValue(lib, s);
    var l := ValueSound(lib, s);
    var w1 := SpaceSplits(left.rest);
    var tag := Tag(OpTag(op), Space(left.rest));
    TagSplits(OpTag(op), Space(left.rest));
    var w2 := SpaceSplits(tag.rest);
    var right := ParseValue(lib, Space(tag.rest));
    var r := ValueSound(lib, Space(tag.rest));
    e := Chain(l, w1, op, w2, r);
    ChainSpelling(l, w1, op, w2, r, right.rest);
  }

  lemma {:induction false} BracketsSound(lib: Library, s: string) returns (v: ValueTree)
    requires ParseBrackets(lib, s).Ok?
    ensures var p := ParseBrackets(lib, s);
      ValueOk(lib, v) && s == ValueText(v) + p.rest && ValueMeaning(lib, v) == p.value
    decreases |s|, 0
  {
    var s1 := Sym('(', s).rest;
    SymSplits('(', s);
    var w1 := SpaceSplits(s1);
    var top := ParseTop(lib, Space(s1));
    var body := TopSound(lib, Space(s1));
    var w2 := SpaceSplits(top.rest);
    SymSplits(')', Space(top.rest));
    v := Brackets(w1, body, w2);
    BracketsSpelling(w1, body, w2, Sym(')', Space(top.rest)).rest);
  }

  lemma {:induction false} ValueSound(lib: Library, s: string) returns (v: ValueTree)
    requires ParseValue(lib, s).Ok?
    ensures var p := ParseValue(lib, s);
      ValueOk(lib, v) && s == ValueText(v) + p.rest && ValueMeaning(lib, v) == p.value
    decreases |s|, 1
  {
    if k :| ParseCall(lib, k, s).Ok? {
      CallUnique(lib, k, s);
      v := CallSound(lib, k, s);
    } else if ParseQuery(s).Ok? {
      v := QuerySound(lib, s);
    } else {
      v := BracketsSound(lib, s);
    }
  }

  lemma CallUnique(lib: Library, k: Kind, s: string)
    requires ParseCall(lib, k, s).Ok?
    ensures ParseValue(lib, s) == ParseCall(lib, k, s)
  {
    var x := s[|KindTag(k)|..];
    assert s == KindTag(k) + x;
    CallAlone(lib, k, x);
  }

  lemma {:induction false} TopSound(lib: Library, s: string) returns (e: ExprTree)
    requires ParseTop(lib, s).Ok?
    ensures var p := ParseTop(lib, s);
      && ExprOk(lib, e) && s == ExprText(e) + p.rest && ExprMeaning(lib, e) == p.value
      && (e.Single? ==> ParseChained(lib, s).Fail?)
    decreases |s|, 4
  {
    if ParseBinary(lib, AndOp, s).Ok? {
      e := BinarySound(lib, AndOp, s);
    } else if ParseBinary(lib, OrOp, s).Ok? {
      e := BinarySound(lib, OrOp, s);
    } else {
      var v := ValueSound(lib, s);
      e := Single(v);
    }
  }

  // ---------------------------------------------------------------- exactness and its consequences

  /** `parser()` accepts a text with result `m` exactly when the text is a rendering of `m`. */
  lemma ParserExact(lib: Library, s: string, m: Matcher)
    ensures ParseRule(lib, s) == Some(m) <==> IsRule(lib, s, m)
  {
    if ParseRule(lib, s) == Some(m) {
      var lead := SpaceSplits(s);
      var e := TopSound(lib, Space(s));
      assert ExprText(e) + "" == ExprText(e);
      assert Spells(lib, lead, e, s, m);
    }
    forall lead, e | Spells(lib, lead, e, s, m) ensures ParseRule(lib, s) == Some(m) {
      RuleComplete(lib, lead, e);
    }
  }

  lemma RuleComplete(lib: Library, lead: string, e: ExprTree)
    requires AllBlank(lead) && ExprOk(lib, e)
    ensures ParseRule(lib, lead + ExprText(e)) == Some(ExprMeaning(lib, e))
  {
    ExprHeadNotBlank(e);
    SpaceSkipsBlanks(lead, ExprText(e));
    assert ExprText(e) + "" == ExprText(e);
    ExprComplete(lib, e, "");
  }

  /** `value()` never looks past its own end: appending anything to the input only adds to the rest. */
  lemma PrefixLocality(lib: Library, s: string, m: Matcher, rest: string, x: string)
    requires ParseValue(lib, s) == Ok(m, rest)
    ensures ParseValue(lib, s + x) == Ok(m, rest + x)
  {
    var v := ValueSound(lib, s);
    ValueComplete(lib, v, rest + x);
    Reassociate(ValueText(v), rest, x);
  }

  /** The grammar is unambiguous. */
  lemma RulesUnambiguous(lib: Library, s: string, m: Matcher, m': Matcher)
    requires IsRule(lib, s, m) && IsRule(lib, s, m')
    ensures m == m'
  {
    ParserExact(lib, s, m);
    ParserExact(lib, s, m');
  }

  // ---------------------------------------------------------------- printing

  /** Matchers whose literals a rule can carry. */
  predicate Printable(lib: Library, m: Matcher) {
    match m
    case Host(h) => !EndsInBackslash(h)
    case HostRegexp(r) => !EndsInBackslash(r) && lib.regexValid(r)
    case Method(v) => !EndsInBackslash(v) && lib.methodValid(v)
    case Path(p) => !EndsInBackslash(p)
    case PathRegexp(r) => !EndsInBackslash(r) && lib.regexValid(r)
    case Query(k, v) => !EndsInBackslash(k) && !EndsInBackslash(v)
    case And(l, r) => Printable(lib, l) && Printable(lib, r)
    case Or(l, r) => Printable(lib, l) && Printable(lib, r)
  }

  /** The tree of a matcher used as an operand: nested `&&` and `||` get brackets. */
  function OperandTree(m: Matcher): ValueTree {
    match m
    case Host(h) => Call(KHost, h)
    case HostRegexp(r) => Call(KHostRegexp, r)
    case Method(v) => Call(KMethod, v)
    case Path(p) => Call(KPath, p)
    case PathRegexp(r) => Call(KPathRegexp, r)
    case Query(k, v) => QueryCall(k, "", " ", v)
    case And(l, r) => Brackets("", Chain(OperandTree(l), " ", AndOp, " ", OperandTree(r)), "")
    case Or(l, r) => Brackets("", Chain(OperandTree(l), " ", OrOp, " ", OperandTree(r)), "")
  }

  function RuleTree(m: Matcher): ExprTree {
    var v := OperandTree(m);
    if v.Brackets? then v.body else Single(v)
  }

  /** The rule text of a matcher, as the documentation writes rules. */
  function Print(m: Matcher): string {
    ExprText(RuleTree(m))
  }

  lemma {:induction false} OperandTreeMeans(lib: Library, m: Matcher)
    requires Printable(lib, m)
    ensures ValueOk(lib, OperandTree(m)) && ValueMeaning(lib, OperandTree(m)) == m
  {
    match m
    case And(l, r) => OperandTreeMeans(lib, l); OperandTreeMeans(lib, r);
    case Or(l, r) => OperandTreeMeans(lib, l); OperandTreeMeans(lib, r);
    case _ =>
  }

  lemma {:induction false} ValueMeaningPrintable(lib: Library, v: ValueTree)
    requires ValueOk(lib, v)
    ensures Printable(lib, ValueMeaning(lib, v))
    decreases v
  {
    match v
    case Call(_, _) =>
    case QueryCall(_, _, _, _) =>
    case Brackets(_, body, _) => ExprMeaningPrintable(lib, body);
  }

  lemma {:induction false} ExprMeaningPrintable(lib: Library, e: ExprTree)
    requires ExprOk(lib, e)
    ensures Printable(lib, ExprMeaning(lib, e))
    decreases e
  {
    match e
    case Single(v) => ValueMeaningPrintable(lib, v);
    case Chain(l, _, _, _, r) =>
      ValueMeaningPrintable(lib, l);
      ValueMeaningPrintable(lib, r);
  }

  /** Printing a matcher and parsing the text gives the matcher back, exactly for printable ones. */
  lemma PrintParse(lib: Library, m: Matcher)
    ensures Printable(lib, m) <==> ParseRule(lib, Print(m)) == Some(m)
    ensures Printable(lib, m) <==> exists s :: ParseRule(lib, s) == Some(m)
  {
    if Printable(lib, m) {
      OperandTreeMeans(lib, m);
      assert "" + Print(m) == Print(m);
      RuleComplete(lib, "", RuleTree(m));
    }
    forall s | ParseRule(lib, s) == Some(m) ensures Printable(lib, m) {
      ParserExact(lib, s, m);
      var lead, e :| Spells(lib, lead, e, s, m);
      ExprMeaningPrintable(lib, e);
    }
  }

  /** Normalising an accepted rule by printing it does not change what it parses to. */
  lemma ParsePrintParse(lib: Library, s: string)
    requires ParseRule(lib, s).Some?
    ensures ParseRule(lib, Print(ParseRule(lib, s).value)) == ParseRule(lib, s)
  {
    PrintParse(lib, ParseRule(lib, s).value);
  }

  /** What the keywords stand for, letter by letter, and which arguments they can carry. */
  lemma KeywordsMean(lib: Library, x: string, y: string)
    ensures ParseRule(lib, "Host(" + Quote(x) + ")") == Some(Host(x)) <==> !EndsInBackslash(x)
    ensures ParseRule(lib, "Path(" + Quote(x) + ")") == Some(Path(x)) <==> !EndsInBackslash(x)
    ensures ParseRule(lib, "Query(" + Quote(x) + ", " + Quote(y) + ")") == Some(Query(x, y)) <==>
      !EndsInBackslash(x) && !EndsInBackslash(y)
  {
    CallMeans(lib, KHost, x);
    CallMeans(lib, KPath, x);
    QueryPrinted(x, y);
    PrintParse(lib, Query(x, y));
  }

  /** Methods and regular expressions have to be ones their crates accept. */
  lemma CheckedKeywordsMean(lib: Library, x: string)
    ensures ParseRule(lib, "Method(" + Quote(x) + ")") == Some(Method(x)) <==>
      !EndsInBackslash(x) && lib.methodValid(x)
    ensures ParseRule(lib, "HostRegexp(" + Quote(x) + ")") == Some(HostRegexp(x)) <==>
      !EndsInBackslash(x) && lib.regexValid(x)
    ensures ParseRule(lib, "PathRegexp(" + Quote(x) + ")") == Some(PathRegexp(x)) <==>
      !EndsInBackslash(x) && lib.regexValid(x)
  {
    CallMeans(lib, KMethod, x);
    CallMeans(lib, KHostRegexp, x);
    CallMeans(lib, KPathRegexp, x);
  }

  lemma CallMeans(lib: Library, k: Kind, x: string)
    ensures ParseRule(lib, Keyword(k) + Quote(x) + ")") == Some(CallMeaning(k, x)) <==>
      !EndsInBackslash(x) && CallOk(lib, k, x)
  {
    CallPrinted(k, x);
    PrintParse(lib, CallMeaning(k, x));
  }

  lemma CallPrinted(k: Kind, x: string)
    ensures Print(CallMeaning(k, x)) == Keyword(k) + Quote(x) + ")"
  {
    assert OperandTree(CallMeaning(k, x)) == Call(k, x);
    assert ExprText(Single(Call(k, x))) == ValueText(Call(k, x));
    Reassociate(Keyword(k), Quote(x), ")");
  }

  lemma QueryPrinted(x: string, y: string)
    ensures Print(Query(x, y)) == "Query(" + Quote(x) + ", " + Quote(y) + ")"
  {
    var v := QueryCall(x, "", " ", y);
    assert OperandTree(Query(x, y)) == v && ExprText(Single(v)) == ValueText(v);
    var s := Quote(y) + ")";
    assert "" + ("," + (" " + s)) == ", " + s;
    Reassociate("Query(" + Quote(x), ", ", Quote(y));
    Reassociate("Query(" + Quote(x), ", " + Quote(y), ")");
    Reassociate(", ", Quote(y), ")");
    Reassociate("Query(", Quote(x), ", " + s);
  }

  /** `&&` between two values means both, `||` means either, whatever the values are. */
  lemma OperatorsMean(lib: Library, l: ValueTree, r: ValueTree)
    requires ValueOk(lib, l) && ValueOk(lib, r)
    ensures ParseRule(lib, ValueText(l) + " && " + ValueText(r))
         == Some(And(ValueMeaning(lib, l), ValueMeaning(lib, r)))
    ensures ParseRule(lib, ValueText(l) + " || " + ValueText(r))
         == Some(Or(ValueMeaning(lib, l), ValueMeaning(lib, r)))
  {
    assert " " + OpText(AndOp) + " " == " && " && " " + OpText(OrOp) + " " == " || ";
    ChainMeans(lib, l, AndOp, r);
    ChainMeans(lib, l, OrOp, r);
  }

  lemma ChainMeans(lib: Library, l: ValueTree, op: Op, r: ValueTree)
    requires ValueOk(lib, l) && ValueOk(lib, r)
    ensures ParseRule(lib, ValueText(l) + (" " + OpText(op) + " ") + ValueText(r))
         == Some(ExprMeaning(lib, Chain(l, " ", op, " ", r)))
  {
    var e := Chain(l, " ", op, " ", r);
    assert "" + ExprText(e) == ExprText(e);
    RuleComplete(lib, "", e);
    ChainText(l, op, r);
  }

  lemma ChainText(l: ValueTree, op: Op, r: ValueTree)
    ensures ExprText(Chain(l, " ", op, " ", r)) == ValueText(l) + (" " + OpText(op) + " ") + ValueText(r)
  {
    Reassociate(ValueText(l), " " + OpText(op) + " ", ValueText(r));
    Reassociate(" " + OpText(op), " ", ValueText(r));
    Reassociate(" ", OpText(op), " " + ValueText(r));
  }

  // ---------------------------------------------------------------- what is rejected

  /** A further operand: blanks, operator, blanks, value. */
  datatype Link = Link(w1: string, op: Op, w2: string, operand: ValueTree)

  ghost predicate LinkOk(lib: Library, k: Link) {
    AllBlank(k.w1) && AllBlank(k.w2) && ValueOk(lib, k.operand)
  }

  function LinkText(k: Link): string {
    k.w1 + (OpText(k.op) + (k.w2 + ValueText(k.operand)))
  }

  function LinksText(ks: seq<Link>): string {
    if ks == [] then "" else LinkText(ks[0]) + LinksText(ks[1..])
  }

  /**
   An unbracketed chain `v op v op v ...` is accepted exactly when it has at most two operands.
   */
  lemma LongChainsRejected(lib: Library, lead: string, first: ValueTree, links: seq<Link>)
    requires AllBlank(lead) && ValueOk(lib, first)
    requires forall i :: 0 <= i < |links| ==> LinkOk(lib, links[i])
    ensures ParseRule(lib, lead + (ValueText(first) + LinksText(links))).Some? <==> |links| <= 1
  {
    if links == [] {
      assert ValueText(first) + LinksText(links) == ExprText(Single(first));
      RuleComplete(lib, lead, Single(first));
    } else {
      var k := links[0];
      var more := LinksText(links[1..]);
      assert LinkOk(lib, k);
      LinkSpelling(first, k, more);
      RuleThenMore(lib, lead, Chain(first, k.w1, k.op, k.w2, k.operand), more);
      if |links| > 1 {
        assert links[1..][0] == links[1];
        assert |LinkText(links[1])| > 0;
      }
    }
  }

  lemma LinkSpelling(first: ValueTree, k: Link, more: string)
    ensures ValueText(first) + (LinkText(k) + more) == ExprText(Chain(first, k.w1, k.op, k.w2, k.operand)) + more
  {
    Reassociate(ValueText(first), LinkText(k), more);
  }

  /** A complete expression that something follows is no rule. */
  lemma RuleThenMore(lib: Library, lead: string, e: ExprTree, more: string)
    requires AllBlank(lead) && ExprOk(lib, e) && (e.Single? ==> NoOperator(more))
    ensures ParseRule(lib, lead + (ExprText(e) + more)).Some? <==> more == ""
  {
    ExprHeadNotBlank(e);
    SpaceSkipsBlanks(lead, ExprText(e) + more);
    ExprComplete(lib, e, more);
  }

  /** Blanks may lead a rule but never follow it. */
  lemma TrailingBlanksRejected(lib: Library, s: string, w: string)
    requires ParseRule(lib, s).Some? && AllBlank(w) && w != ""
    ensures ParseRule(lib, s + w) == None
  {
    var m := ParseRule(lib, s).value;
    ParserExact(lib, s, m);
    var lead, e :| Spells(lib, lead, e, s, m);
    Reassociate(lead, ExprText(e), w);
    assert w + "" == w;
    SpaceSkipsBlanks(w, "");
    RuleThenMore(lib, lead, e, w);
  }

  // ---------------------------------------------------------------- literals

  /**
   Reading quoted literals is a bijection between texts and the strings not ending in a
   backslash: every such string has exactly one quoted form, and no other string has any.
   */
  lemma LiteralBijection(t: string, u: string)
    ensures !EndsInBackslash(t) <==> Literal(Quote(t)) == Ok(t, "")
    ensures !EndsInBackslash(t) <==> exists s :: Literal(s) == Ok(t, "")
    ensures Quote(t) == Quote(u) <==> t == u
    ensures forall s, s' :: Literal(s) == Ok(t, "") && Literal(s') == Ok(t, "") ==> s == s'
  {
    assert Quote(t) == Quote(t) + "";
    LiteralExact(Quote(t), t, "");
    forall s | Literal(s) == Ok(t, "") ensures s == Quote(t) && !EndsInBackslash(t) {
      LiteralExact(s, t, "");
      assert Quote(t) == Quote(t) + "";
    }
    if Quote(t) == Quote(u) {
      assert Escape(t) == Quote(t)[1..|Quote(t)| - 1];
      assert Escape(u) == Quote(u)[1..|Quote(u)| - 1];
      EscapeInjective(t, u);
    }
  }

  // ---------------------------------------------------------------- what a rule means

  /** A rule as alternatives, each a list of single conditions that must all hold. */
  function Alternatives(m: Matcher): seq<seq<Matcher>> {
    match m
    case And(l, r) => Combine(Alternatives(l), Alternatives(r))
    case Or(l, r) => Alternatives(l) + Alternatives(r)
    case _ => [[m]]
  }

  function Combine(xs: seq<seq<Matcher>>, ys: seq<seq<Matcher>>): seq<seq<Matcher>> {
    if xs == [] then [] else Prepend(xs[0], ys) + Combine(xs[1..], ys)
  }

  function Prepend(x: seq<Matcher>, ys: seq<seq<Matcher>>): seq<seq<Matcher>> {
    seq(|ys|, i requires 0 <= i < |ys| => x + ys[i])
  }

  /** The exact conditions that are true of a request, listed from its parts. */
  function Facts(request: Request): set<Matcher> {
    {Method(request.verb), Path(request.path)}
    + (if request.host.Some? then {Host(request.host.value.text)} else {})
    + set k | k in request.query :: Query(k, request.query[k])
  }

  /** A single condition holds if it is a fact, or if its regular expression accepts its part. */
  predicate Holds(lib: Library, m: Matcher, request: Request) {
    || m in Facts(request)
    || (m.PathRegexp? && lib.regexMatches(m.pathRegex, request.path))
    || (m.HostRegexp? && exists text | text in VisibleHost(request) :: lib.regexMatches(m.hostRegex, text))
  }

  function VisibleHost(request: Request): set<string> {
    match request.host
    case Some(HeaderText(text, true)) => {text}
    case _ => {}
  }

  ghost predicate AllHold(lib: Library, ms: seq<Matcher>, request: Request) {
    forall i :: 0 <= i < |ms| ==> Holds(lib, ms[i], request)
  }

  ghost predicate SomeHolds(lib: Library, xs: seq<seq<Matcher>>, request: Request) {
    exists i :: 0 <= i < |xs| && AllHold(lib, xs[i], request)
  }

  lemma BothHold(lib: Library, x: seq<Matcher>, y: seq<Matcher>, request: Request)
    ensures AllHold(lib, x + y, request) <==> AllHold(lib, x, request) && AllHold(lib, y, request)
  {
    if AllHold(lib, x + y, request) {
      assert forall i :: 0 <= i < |x| ==> x[i] == (x + y)[i];
      assert forall i :: 0 <= i < |y| ==> y[i] == (x + y)[|x| + i];
    }
  }

  lemma EitherHolds(lib: Library, xs: seq<seq<Matcher>>, ys: seq<seq<Matcher>>, request: Request)
    ensures SomeHolds(lib, xs + ys, request) <==> SomeHolds(lib, xs, request) || SomeHolds(lib, ys, request)
  {
    if SomeHolds(lib, xs, request) {
      var i :| 0 <= i < |xs| && AllHold(lib, xs[i], request);
      assert (xs + ys)[i] == xs[i];
    }
    if SomeHolds(lib, ys, request) {
      var i :| 0 <= i < |ys| && AllHold(lib, ys[i], request);
      assert (xs + ys)[|xs| + i] == ys[i];
    }
  }

  lemma PrependHolds(lib: Library, x: seq<Matcher>, ys: seq<seq<Matcher>>, request: Request)
    ensures SomeHolds(lib, Prepend(x, ys), request) <==> AllHold(lib, x, request) && SomeHolds(lib, ys, request)
  {
    forall i | 0 <= i < |ys|
      ensures AllHold(lib, Prepend(x, ys)[i], request) <==> AllHold(lib, x, request) && AllHold(lib, ys[i], request)
    {
      BothHold(lib, x, ys[i], request);
    }
  }

  lemma {:induction false} CombineHolds(lib: Library, xs: seq<seq<Matcher>>, ys: seq<seq<Matcher>>, request: Request)
    ensures SomeHolds(lib, Combine(xs, ys), request) <==> SomeHolds(lib, xs, request) && SomeHolds(lib, ys, request)
  {
    if xs != [] {
      CombineHolds(lib, xs[1..], ys, request);
      PrependHolds(lib, xs[0], ys, request);
      EitherHolds(lib, Prepend(xs[0], ys), Combine(xs[1..], ys), request);
      EitherHolds(lib, [xs[0]], xs[1..], request);
      assert [xs[0]] + xs[1..] == xs;
      assert SomeHolds(lib, [xs[0]], request) <==> AllHold(lib, [xs[0]][0], request);
    }
  }

  /** A nested rule matches a request exactly if all conditions of one of its alternatives hold. */
  lemma {:induction false} MatchesByAlternatives(lib: Library, m: Matcher, request: Request)
    ensures Matches(lib, m, request) <==> SomeHolds(lib, Alternatives(m), request)
  {
    match m
    case And(l, r) =>
      MatchesByAlternatives(lib, l, request);
      MatchesByAlternatives(lib, r, request);
      CombineHolds(lib, Alternatives(l), Alternatives(r), request);
    case Or(l, r) =>
      MatchesByAlternatives(lib, l, request);
      MatchesByAlternatives(lib, r, request);
      EitherHolds(lib, Alternatives(l), Alternatives(r), request);
    case _ =>
      assert AllHold(lib, [m], request) <==> Holds(lib, [m][0], request);
      assert Alternatives(m)[0] == [m];
  }

  /** Of all arguments, `x` is the only one accepted. */
  ghost predicate OnlyFor(accepts: string -> bool, x: string) {
    forall y :: accepts(y) <==> y == x
  }

  ghost predicate ForNone(accepts: string -> bool) {
    forall y :: !accepts(y)
  }

  /**
   The single conditions. Every request is matched by exactly one `Method` and one `Path`, and by
   one `Host` and one `Query` per key if it has that part, by none otherwise. A regular expression
   is asked about the path, or about the host if there is one and it is visible text.
   */
  lemma SingleConditions(lib: Library, request: Request, key: string, regex: string)
    ensures OnlyFor(v => Matches(lib, Method(v), request), request.verb)
    ensures OnlyFor(p => Matches(lib, Path(p), request), request.path)
    ensures request.host.Some? ==> OnlyFor(h => Matches(lib, Host(h), request), request.host.value.text)
    ensures request.host.None? ==> ForNone(h => Matches(lib, Host(h), request))
    ensures key in request.query ==> OnlyFor(v => Matches(lib, Query(key, v), request), request.query[key])
    ensures key !in request.query ==> ForNone(v => Matches(lib, Query(key, v), request))
    ensures Matches(lib, PathRegexp(regex), request) == lib.regexMatches(regex, request.path)
    ensures Matches(lib, HostRegexp(regex), request) ==
      match request.host
      case None => false
      case Some(HeaderText(_, false)) => false
      case Some(HeaderText(text, true)) => lib.regexMatches(regex, text)
  {
  }

  /** The rule that asks for everything a request says: verb, path, host and the given query keys. */
  function ExactRule(r: Request, keys: seq<string>): Matcher
    requires forall k :: k in keys ==> k in r.query
  {
    if keys != [] then And(Query(keys[0], r.query[keys[0]]), ExactRule(r, keys[1..]))
    else if r.host.Some? then And(Host(r.host.value.text), And(Method(r.verb), Path(r.path)))
    else And(Method(r.verb), Path(r.path))
  }

  /** The request says what `r` says: the same verb, path, host if `r` has one, and query values. */
  ghost predicate SaysTheSame(r: Request, keys: seq<string>, r': Request)
    requires forall k :: k in keys ==> k in r.query
  {
    && r'.verb == r.verb && r'.path == r.path
    && (r.host.Some? ==> r'.host.Some? && r'.host.value.text == r.host.value.text)
    && forall k :: k in keys ==> k in r'.query && r'.query[k] == r.query[k]
  }

  /** A request's exact rule matches exactly the requests that say the same, so the request itself too. */
  lemma {:induction false} ExactRuleMatches(lib: Library, r: Request, keys: seq<string>, r': Request)
    requires forall k :: k in keys ==> k in r.query
    ensures Matches(lib, ExactRule(r, keys), r') <==> SaysTheSame(r, keys, r')
    decreases keys
  {
    if keys != [] {
      ExactRuleMatches(lib, r, keys[1..], r');
      assert keys == [keys[0]] + keys[1..];
      var query := Query(keys[0], r.query[keys[0]]);
      assert Matches(lib, query, r') <==> keys[0] in r'.query && r'.query[keys[0]] == r.query[keys[0]];
    } else {
      var both := And(Method(r.verb), Path(r.path));
      assert Matches(lib, both, r') <==> r'.verb == r.verb && r'.path == r.path;
    }
  }

  /** From text to verdict: the exact rule, written down and parsed, matches those requests alone. */
  lemma ExactRuleText(lib: Library, r: Request, keys: seq<string>, r': Request)
    requires forall k :: k in keys ==> k in r.query
    ensures var rule := ParseRule(lib, Print(ExactRule(r, keys)));
      Printable(lib, ExactRule(r, keys)) ==>
        rule.Some? && Matches(lib, rule.value, r) && (Matches(lib, rule.value, r') <==> SaysTheSame(r, keys, r'))
  {
    PrintParse(lib, ExactRule(r, keys));
    ExactRuleMatches(lib, r, keys, r);
    ExactRuleMatches(lib, r, keys, r');
  }

  /** The parts of a request that a rule mentions. */
  datatype Part = HostPart | VerbPart | PathPart | QueryPart(key: string)

  function Mentions(m: Matcher): set<Part> {
    match m
    case Host(_) => {HostPart}
    case HostRegexp(_) => {HostPart}
    case Method(_) => {VerbPart}
    case Path(_) => {PathPart}
    case PathRegexp(_) => {PathPart}
    case Query(k, _) => {QueryPart(k)}
    case And(l, r) => Mentions(l) + Mentions(r)
    case Or(l, r) => Mentions(l) + Mentions(r)
  }

  predicate AgreeOn(p: Part, r: Request, r': Request) {
    match p
    case HostPart => r.host == r'.host
    case VerbPart => r.verb == r'.verb
    case PathPart => r.path == r'.path
    case QueryPart(k) => (k in r.query <==> k in r'.query) && (k in r.query ==> r.query[k] == r'.query[k])
  }

  /** Whether a rule matches depends on nothing but the parts it mentions. */
  lemma {:induction false} MatchesReadsMentioned(lib: Library, m: Matcher, r: Request, r': Request)
    requires forall p :: p in Mentions(m) ==> AgreeOn(p, r, r')
    ensures Matches(lib, m, r) == Matches(lib, m, r')
  {
    match m
    case Host(_) => assert AgreeOn(HostPart, r, r');
    case HostRegexp(_) => assert AgreeOn(HostPart, r, r');
    case Method(_) => assert AgreeOn(VerbPart, r, r');
    case Path(_) => assert AgreeOn(PathPart, r, r');
    case PathRegexp(_) => assert AgreeOn(PathPart, r, r');
    case Query(k, _) => assert AgreeOn(QueryPart(k), r, r');
    case And(a, b) =>
      MatchesReadsMentioned(lib, a, r, r');
      MatchesReadsMentioned(lib, b, r, r');
    case Or(a, b) =>
      MatchesReadsMentioned(lib, a, r, r');
      MatchesReadsMentioned(lib, b, r, r');
  }
}
