/** String operations of the standard library that several components use. */
module Text {
  /** `str::split` on a character: always at least one part. */
  function Split(s: string, sep: char): (parts: seq<string>)
    ensures parts != []
  {
    if s == "" then [""]
    else
      var rest := Split(s[1..], sep);
      if s[0] == sep then [""] + rest else [[s[0]] + rest[0]] + rest[1..]
  }

  function Join(parts: seq<string>, sep: char): string
    requires parts != []
  {
    if |parts| == 1 then parts[0] else parts[0] + [sep] + Join(parts[1..], sep)
  }

  /** Splitting loses nothing and leaves no separator. */
  lemma {:induction false} SplitThenJoin(s: string, sep: char)
    ensures Join(Split(s, sep), sep) == s
    ensures forall i :: 0 <= i < |Split(s, sep)| ==> sep !in Split(s, sep)[i]
  {
    if s != "" {
      SplitThenJoin(s[1..], sep);
      var rest, parts := Split(s[1..], sep), Split(s, sep);
      if s[0] == sep {
        assert parts[1..] == rest;
      } else {
        assert parts[1..] == rest[1..];
      }
      assert s == [s[0]] + s[1..];
    }
  }

  /** Splitting finds exactly the parts that were joined. */
  lemma {:induction false} JoinThenSplit(parts: seq<string>, sep: char)
    requires parts != [] && forall i :: 0 <= i < |parts| ==> sep !in parts[i]
    ensures Split(Join(parts, sep), sep) == parts
    decreases |parts|, |parts[0]|
  {
    var first, rest := parts[0], parts[1..];
    var s := Join(parts, sep);
    if first != "" {
      var shorter := [first[1..]] + rest;
      assert shorter[1..] == rest;
      assert sep !in shorter[0];
      JoinThenSplit(shorter, sep);
      assert s[1..] == Join(shorter, sep);
      assert [first[0]] + first[1..] == first;
      assert parts == [first] + rest;
    } else if rest != [] {
      JoinThenSplit(rest, sep);
      assert s[1..] == Join(rest, sep);
      assert parts == [""] + rest;
    } else {
      assert parts == [""];
    }
  }

  lemma {:induction false} SplitWhole(t: string, sep: char)
    requires sep !in t
    ensures Split(t, sep) == [t]
  {
    if t != "" {
      SplitWhole(t[1..], sep);
      assert [t[0]] + t[1..] == t;
    }
  }

  /** What follows the last separator is the last part. */
  lemma {:induction false} SplitLast(s: string, sep: char, t: string)
    requires sep !in t
    ensures Split(s + [sep] + t, sep) == Split(s, sep) + [t]
  {
    var x := s + [sep] + t;
    if s == "" {
      assert x[0] == sep && x[1..] == t;
      SplitWhole(t, sep);
    } else {
      assert x[0] == s[0] && x[1..] == s[1..] + [sep] + t;
      SplitLast(s[1..], sep, t);
    }
  }
}
