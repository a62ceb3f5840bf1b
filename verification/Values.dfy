/** The values the scripts and contracts exchange: parsed JSON documents and the
    Python string operations applied to them. */
module Values {

  datatype Option<+T> = None | Some(value: T)

  /** A JSON object. Python compares and hashes dictionaries without regard to the order of
      their keys, and so does a map. */
  type Dict = map<string, Json>

  /** A parsed JSON value. NonFinite stands for NaN and the infinities, which Python's parser
      accepts; no code modelled here compares one of them with another. */
  datatype Json =
    | Null
    | Bool(flag: bool)
    | Int(whole: int)
    | Float(number: real)
    | NonFinite
    | Str(text: string)
    | List(items: seq<Json>)
    | Obj(fields: Dict)

  /** dict.get without a default: an absent key reads as null. */
  function Get(d: Dict, key: string): Json {
    if key in d then d[key] else Null
  }

  /** dict.get with a default. */
  function GetOr(d: Dict, key: string, default: Json): Json {
    if key in d then d[key] else default
  }

  /** What a value holds under a key, null for anything but an object. */
  function FieldOf(value: Json, key: string): Json {
    if value.Obj? then Get(value.fields, key) else Null
  }

  /** The number behind a value under Python's ==, where True is 1 and 200.0 is 200. */
  function Number(j: Json): Option<real> {
    match j
    case Bool(b) => Some(if b then 1.0 else 0.0)
    case Int(n) => Some(n as real)
    case Float(x) => Some(x)
    case _ => None
  }

  /** Python's == on parsed JSON. */
  predicate PyEq(a: Json, b: Json) {
    if Number(a).Some? || Number(b).Some? then
      Number(a) == Number(b)
    else
      match (a, b)
      case (List(x), List(y)) =>
        |x| == |y| && forall i | 0 <= i < |x| :: PyEq(x[i], y[i])
      case (Obj(x), Obj(y)) =>
        x.Keys == y.Keys && forall k | k in x.Keys :: PyEq(x[k], y[k])
      case (NonFinite, _) => false
      case _ => a == b
  }

  /** bool(value) */
  predicate Truthy(j: Json) {
    match j
    case Null => false
    case Bool(b) => b
    case Int(n) => n != 0
    case Float(x) => x != 0.0
    case NonFinite => true
    case Str(s) => s != ""
    case List(items) => items != []
    case Obj(fields) => fields != map[]
  }

  function UpperChar(c: char): char {
    if 'a' <= c <= 'z' then c - 'a' + 'A' else c
  }

  function LowerChar(c: char): char {
    if 'A' <= c <= 'Z' then c - 'A' + 'a' else c
  }

  function Upper(s: string): (r: string)
    ensures |r| == |s|
  {
    seq(|s|, i requires 0 <= i < |s| => UpperChar(s[i]))
  }

  function Lower(s: string): (r: string)
    ensures |r| == |s|
  {
    seq(|s|, i requires 0 <= i < |s| => LowerChar(s[i]))
  }

  predicate EndsWith(s: string, suffix: string) {
    |suffix| <= |s| && s[|s| - |suffix|..] == suffix
  }

  predicate IsSpace(c: char) {
    c == ' ' || '\t' <= c <= '\r'
  }

  function StripLeft(s: string): string {
    if s != "" && IsSpace(s[0]) then StripLeft(s[1..]) else s
  }

  function StripRight(s: string): string {
    if s != "" && IsSpace(s[|s| - 1]) then StripRight(s[..|s| - 1]) else s
  }

  function Strip(s: string): string {
    StripRight(StripLeft(s))
  }

  /** str.split with a one-character separator. */
  function Split(s: string, sep: char): (parts: seq<string>)
    ensures |parts| >= 1
  {
    if s == "" then [""]
    else
      var rest := Split(s[1..], sep);
      if s[0] == sep then [""] + rest else [[s[0]] + rest[0]] + rest[1..]
  }

  /** The falsy values. */
  lemma FalsyExactly(j: Json)
    ensures Truthy(j) <==> j !in {Null, Bool(false), Int(0), Float(0.0), Str(""), List([]), Obj(map[])}
  {
  }

  // ---------------------------------------------------------------- what the string operations do

  /** sep.join(parts) */
  function Join(parts: seq<string>, sep: char): string
    requires parts != []
  {
    if |parts| == 1 then parts[0] else parts[0] + [sep] + Join(parts[1..], sep)
  }

  lemma {:induction false} SplitJoins(s: string, sep: char)
    ensures Join(Split(s, sep), sep) == s
    ensures forall i | 0 <= i < |Split(s, sep)| :: sep !in Split(s, sep)[i]
  {
    if s != "" {
      var rest, parts := Split(s[1..], sep), Split(s, sep);
      SplitJoins(s[1..], sep);
      assert s == [s[0]] + s[1..];
      if s[0] == sep {
        assert parts[1..] == rest;
      } else {
        assert parts[1..] == rest[1..];
        assert |rest| > 1 ==> Join(rest, sep) == rest[0] + [sep] + Join(rest[1..], sep);
      }
    }
  }

  lemma {:induction false} SplitPlain(s: string, sep: char)
    requires sep !in s
    ensures Split(s, sep) == [s]
  {
    if s != "" {
      SplitPlain(s[1..], sep);
      assert s == [s[0]] + s[1..];
    }
  }

  /** Splitting after the first separator. */
  lemma {:induction false} SplitCons(first: string, sep: char, rest: string)
    requires sep !in first
    ensures Split(first + [sep] + rest, sep) == [first] + Split(rest, sep)
  {
    var s := first + [sep] + rest;
    if first == "" {
      assert s[1..] == rest;
    } else {
      SplitCons(first[1..], sep, rest);
      assert s[1..] == first[1..] + [sep] + rest;
      assert first == [first[0]] + first[1..];
    }
  }

  /** A split is the only way to write a text as parts without the separator. */
  lemma {:induction false} SplitOnly(parts: seq<string>, sep: char)
    requires parts != [] && forall i | 0 <= i < |parts| :: sep !in parts[i]
    ensures Split(Join(parts, sep), sep) == parts
  {
    if |parts| == 1 {
      SplitPlain(parts[0], sep);
    } else {
      SplitOnly(parts[1..], sep);
      SplitCons(parts[0], sep, Join(parts[1..], sep));
      assert parts == [parts[0]] + parts[1..];
    }
  }

  /** What one more character in front does to the parts. */
  function Pushed(c: char, sep: char, parts: seq<string>): seq<string>
    requires parts != []
  {
    if c == sep then [""] + parts else [[c] + parts[0]] + parts[1..]
  }

  lemma PushedAppend(c: char, sep: char, x: seq<string>, y: seq<string>)
    requires x != []
    ensures Pushed(c, sep, x + y) == Pushed(c, sep, x) + y
  {
    assert (x + y)[1..] == x[1..] + y;
  }

  lemma {:induction false} SplitAppend(a: string, sep: char, b: string)
    ensures Split(a + [sep] + b, sep) == Split(a, sep) + Split(b, sep)
  {
    var s := a + [sep] + b;
    if a == "" {
      assert s[1..] == b;
    } else {
      SplitAppend(a[1..], sep, b);
      assert s[0] == a[0] && s[1..] == a[1..] + [sep] + b;
      assert Split(s, sep) == Pushed(a[0], sep, Split(s[1..], sep));
      assert Split(a, sep) == Pushed(a[0], sep, Split(a[1..], sep));
      PushedAppend(a[0], sep, Split(a[1..], sep), Split(b, sep));
    }
  }

  predicate AllSpace(s: string) {
    forall i | 0 <= i < |s| :: IsSpace(s[i])
  }

  /** No space at either end. */
  predicate Tight(s: string) {
    s != "" ==> !IsSpace(s[0]) && !IsSpace(s[|s| - 1])
  }

  lemma {:induction false} StripLeftParts(s: string)
    ensures exists before :: AllSpace(before) && s == before + StripLeft(s)
    ensures StripLeft(s) != "" ==> !IsSpace(StripLeft(s)[0])
  {
    if s != "" && IsSpace(s[0]) {
      StripLeftParts(s[1..]);
      var before :| AllSpace(before) && s[1..] == before + StripLeft(s[1..]);
      assert AllSpace([s[0]] + before) && s == [s[0]] + before + StripLeft(s);
    } else {
      assert AllSpace("") && s == "" + s;
    }
  }

  lemma {:induction false} StripRightParts(s: string)
    ensures exists after :: AllSpace(after) && s == StripRight(s) + after
  {
    if s != "" && IsSpace(s[|s| - 1]) {
      var init, last := s[..|s| - 1], s[|s| - 1];
      StripRightParts(init);
      var after :| AllSpace(after) && init == StripRight(init) + after;
      assert s == init + [last] == StripRight(init) + (after + [last]);
      assert AllSpace(after + [last]);
    } else {
      assert AllSpace("") && s == s + "";
    }
  }

  lemma {:induction false} StripRightEnd(s: string)
    ensures StripRight(s) != "" ==> !IsSpace(StripRight(s)[|StripRight(s)| - 1]) && StripRight(s)[0] == s[0]
  {
    if s != "" && IsSpace(s[|s| - 1]) {
      StripRightEnd(s[..|s| - 1]);
    }
  }

  /** Stripping takes away spaces at both ends, and all of them. */
  lemma StripParts(s: string)
    ensures Tight(Strip(s))
    ensures exists before, after ::
              AllSpace(before) && AllSpace(after) && s == before + Strip(s) + after
  {
    StripLeftParts(s);
    StripRightParts(StripLeft(s));
    StripRightEnd(StripLeft(s));
    var before :| AllSpace(before) && s == before + StripLeft(s);
    var after :| AllSpace(after) && StripLeft(s) == Strip(s) + after;
    assert s == before + Strip(s) + after;
  }

  lemma StripTight(s: string)
    requires Tight(s)
    ensures Strip(s) == s
  {
  }

  lemma {:induction false} StripLeftOf(before: string, s: string)
    requires AllSpace(before) && s != "" && !IsSpace(s[0])
    ensures StripLeft(before + s) == s
  {
    if before == "" {
      assert before + s == s;
    } else {
      StripLeftOf(before[1..], s);
      assert (before + s)[1..] == before[1..] + s;
    }
  }

  lemma {:induction false} StripRightOf(s: string, after: string)
    requires AllSpace(after) && s != "" && !IsSpace(s[|s| - 1])
    ensures StripRight(s + after) == s
  {
    if after == "" {
      assert s + after == s;
    } else {
      StripRightOf(s, after[..|after| - 1]);
      assert (s + after)[..|s + after| - 1] == s + after[..|after| - 1];
    }
  }

  /** What is left of a text between spaces. */
  lemma StripBetween(before: string, s: string, after: string)
    requires AllSpace(before) && AllSpace(after) && s != "" && Tight(s)
    ensures Strip(before + s + after) == s
  {
    assert before + s + after == before + (s + after);
    StripLeftOf(before, s + after);
    StripRightOf(s, after);
  }

  lemma {:induction false} StripSpace(s: string)
    ensures Strip(s) == "" <==> AllSpace(s)
  {
    StripParts(s);
    var before, after :| AllSpace(before) && AllSpace(after) && s == before + Strip(s) + after;
    if Strip(s) != "" {
      assert s[|before|] == Strip(s)[0];
    }
  }

  /** Two texts of one length that differ at most in the case of ASCII letters. */
  predicate SameButCase(a: string, b: string) {
    |a| == |b| && forall i | 0 <= i < |a| :: SameLetter(a[i], b[i])
  }

  predicate SameLetter(a: char, b: char) {
    a == b || ('a' <= a <= 'z' && b == a - 'a' + 'A') || ('a' <= b <= 'z' && a == b - 'a' + 'A')
  }

  lemma LettersMeet(a: char, b: char)
    ensures LowerChar(a) == LowerChar(b) <==> SameLetter(a, b)
    ensures UpperChar(a) == UpperChar(b) <==> SameLetter(a, b)
  {
  }

  /** Lower-casing and upper-casing forget the case and nothing else. */
  lemma CaseForgotten(a: string, b: string)
    ensures Lower(a) == Lower(b) <==> SameButCase(a, b)
    ensures Upper(a) == Upper(b) <==> SameButCase(a, b)
  {
    if |a| == |b| {
      forall i | 0 <= i < |a|
        ensures Lower(a)[i] == Lower(b)[i] <==> SameLetter(a[i], b[i])
        ensures Upper(a)[i] == Upper(b)[i] <==> SameLetter(a[i], b[i])
      {
        LettersMeet(a[i], b[i]);
      }
    }
  }
}
