/**
  Models of the JavaScript language features the logging-namespace module is
  built from: the `typeof` operator over an untyped value,
  `String.prototype.includes`, `String.prototype.split` with a one-character
  separator and `Array.prototype.join` over an array of strings.
  Strings are sequences of UTF-16 code units; here they are `seq<char>`.
 */
module JsBuiltins {

  /** The `typeof` categories of a JavaScript value other than a string. */
  datatype TypeTag = Undefined | Null | Boolean | Number | BigInt | Symbol | Object | Function

  /** A value of TypeScript's `unknown` type: either a string or something else. */
  datatype Value = Str(s: string) | Other(tag: TypeTag)

  /** The `typeof` operator; note that `typeof null` is "object". */
  function TypeOf(v: Value): (t: string)
    ensures t == "string" <==> v.Str?
    ensures v == Other(Null) ==> t == "object"
  {
    match v
    case Str(_) => "string"
    case Other(tag) =>
      match tag
      case Undefined => "undefined"
      case Null => "object"
      case Boolean => "boolean"
      case Number => "number"
      case BigInt => "bigint"
      case Symbol => "symbol"
      case Object => "object"
      case Function => "function"
  }

  /** `search` occurs in `s` starting at index `i`. */
  predicate OccursAt(s: string, search: string, i: nat)
  {
    i + |search| <= |s| && s[i..i + |search|] == search
  }

  /**
    `s.includes(search)`: searches from position 0 for an occurrence of
    `search`; the empty search string occurs in every string.
   */
  function Includes(s: string, search: string): (b: bool)
    ensures b <==> exists i: nat :: OccursAt(s, search, i)
    decreases |s|
  {
    if |s| < |search| then false
    else if |s| == 0 then
      assert OccursAt(s, search, 0);
      true
    else
      OccursShift(s, search);
      s[..|search|] == search || Includes(s[1..], search)
  }

  /** An occurrence in `s` is at index 0 or is an occurrence in `s[1..]`, shifted by one. */
  lemma OccursShift(s: string, search: string)
    requires |s| > 0
    ensures (exists i: nat :: OccursAt(s, search, i))
        <==> OccursAt(s, search, 0) || exists i: nat :: OccursAt(s[1..], search, i)
  {
    if i: nat :| OccursAt(s, search, i) {
      if i > 0 {
        assert s[1..][i - 1..i - 1 + |search|] == s[i..i + |search|];
        assert OccursAt(s[1..], search, i - 1);
      }
    }
    if i: nat :| OccursAt(s[1..], search, i) {
      assert s[1..][i..i + |search|] == s[i + 1..i + 1 + |search|];
      assert OccursAt(s, search, i + 1);
    }
  }

  /** Searching for a one-character string is testing membership of that character. */
  lemma IncludesChar(s: string, c: char)
    ensures Includes(s, [c]) <==> c in s
  {
    if Includes(s, [c]) {
      var i: nat :| OccursAt(s, [c], i);
      assert s[i] == s[i..i + 1][0] == c;
    }
    if c in s {
      var i :| 0 <= i < |s| && s[i] == c;
      assert s[i..i + 1] == [c];
      assert OccursAt(s, [c], i);
    }
  }

  /**
    `s.split(sep)` for a one-character separator: the maximal `sep`-free
    segments of `s`, in order, keeping empty segments (at either end and
    between adjacent separators); `"".split(sep)` is `[""]`.
   */
  function Split(s: string, sep: char): (r: seq<string>)
    ensures |r| == multiset(s)[sep] + 1
    ensures forall i :: 0 <= i < |r| ==> sep !in r[i]
    decreases |s|
  {
    if |s| == 0 then [""]
    else
      assert s == [s[0]] + s[1..];
      var rest := Split(s[1..], sep);
      if s[0] == sep then [""] + rest
      else [[s[0]] + rest[0]] + rest[1..]
  }

  /**
    `l.join(sep)` over an array of strings: the elements with one `sep`
    between each adjacent pair; `[].join(sep)` is `""`.
   */
  function Join(l: seq<string>, sep: char): (r: string)
    ensures |l| == 0 ==> r == ""
    ensures |l| > 0 ==> l[0] <= r
    decreases |l|
  {
    if |l| == 0 then ""
    else if |l| == 1 then l[0]
    else l[0] + [sep] + Join(l[1..], sep)
  }

  /** Joining a list whose head is `x` and whose tail is non-empty. */
  lemma JoinCons(x: string, t: seq<string>, sep: char)
    requires |t| > 0
    ensures Join([x] + t, sep) == x + [sep] + Join(t, sep)
  {
  }

  /** Prepending one character to the head element of a list prepends it to the join. */
  lemma JoinPrependChar(c: char, x: string, t: seq<string>, sep: char)
    ensures Join([[c] + x] + t, sep) == [c] + Join([x] + t, sep)
  {
  }

  /** Joining what split produced gives back the string. */
  lemma {:induction false} JoinSplit(s: string, sep: char)
    ensures Join(Split(s, sep), sep) == s
    decreases |s|
  {
    if |s| > 0 {
      var rest := Split(s[1..], sep);
      JoinSplit(s[1..], sep);
      if s[0] == sep {
        JoinCons("", rest, sep);
      } else {
        assert rest == [rest[0]] + rest[1..];
        JoinPrependChar(s[0], rest[0], rest[1..], sep);
      }
      assert s == [s[0]] + s[1..];
    }
  }

  /**
    Splitting a string whose `sep`-free prefix is `x` glues `x` onto the
    first segment of the rest.
   */
  lemma {:induction false} SplitSepFreePrefix(x: string, t: string, sep: char)
    requires sep !in x
    ensures Split(x + t, sep) == [x + Split(t, sep)[0]] + Split(t, sep)[1..]
    decreases |x|
  {
    if |x| > 0 {
      assert (x + t)[1..] == x[1..] + t;
      SplitSepFreePrefix(x[1..], t, sep);
      assert [x[0]] + (x[1..] + Split(t, sep)[0]) == x + Split(t, sep)[0];
    } else {
      assert x + t == t;
      assert x + Split(t, sep)[0] == Split(t, sep)[0];
      assert Split(t, sep) == [Split(t, sep)[0]] + Split(t, sep)[1..];
    }
  }

  /** A string without the separator splits into itself alone. */
  lemma SplitSepFree(x: string, sep: char)
    requires sep !in x
    ensures Split(x, sep) == [x]
  {
    SplitSepFreePrefix(x, "", sep);
    assert x + "" == x;
  }

  /** A string that starts with the separator splits into an empty segment and the rest. */
  lemma SplitAfterSep(t: string, sep: char)
    ensures Split([sep] + t, sep) == [""] + Split(t, sep)
  {
  }

  /** A `sep`-free segment followed by the separator is split off as the first segment. */
  lemma SplitSegmentThenSep(x: string, t: string, sep: char)
    requires sep !in x
    ensures Split(x + [sep] + t, sep) == [x] + Split(t, sep)
  {
    assert x + [sep] + t == x + ([sep] + t);
    SplitSepFreePrefix(x, [sep] + t, sep);
    SplitAfterSep(t, sep);
    assert x + "" == x;
    assert ([""] + Split(t, sep))[1..] == Split(t, sep);
  }

  /**
    Splitting what join produced gives back the list, provided the list is
    non-empty and no element contains the separator.
   */
  lemma {:induction false} SplitJoin(l: seq<string>, sep: char)
    requires |l| > 0
    requires forall i :: 0 <= i < |l| ==> sep !in l[i]
    ensures Split(Join(l, sep), sep) == l
    decreases |l|
  {
    if |l| == 1 {
      SplitSepFree(l[0], sep);
    } else {
      SplitJoin(l[1..], sep);
      SplitSegmentThenSep(l[0], Join(l[1..], sep), sep);
      assert l == [l[0]] + l[1..];
    }
  }

  /** Joining a non-empty separator-free list puts exactly one separator between each adjacent pair. */
  lemma {:induction false} JoinSeparatorCount(l: seq<string>, sep: char)
    requires |l| > 0
    requires forall i :: 0 <= i < |l| ==> sep !in l[i]
    ensures multiset(Join(l, sep))[sep] + 1 == |l|
  {
    SplitJoin(l, sep);
  }

  /** A character other than the separator that no element contains is not in the join. */
  lemma {:induction false} JoinAvoids(l: seq<string>, sep: char, c: char)
    requires c != sep
    requires forall i :: 0 <= i < |l| ==> c !in l[i]
    ensures c !in Join(l, sep)
    decreases |l|
  {
    if |l| > 1 {
      JoinAvoids(l[1..], sep, c);
      assert c !in l[0];
    }
  }

  /** A character that the string does not contain is in none of its segments. */
  lemma {:induction false} SplitAvoids(s: string, sep: char, c: char)
    requires c !in s
    ensures forall i :: 0 <= i < |Split(s, sep)| ==> c !in Split(s, sep)[i]
    decreases |s|
  {
    if |s| > 0 {
      SplitAvoids(s[1..], sep, c);
      assert s[0] != c;
    }
  }

  /** The empty list does not survive the round trip: it comes back as `[""]`. */
  lemma SplitJoinEmpty(sep: char)
    ensures Split(Join([], sep), sep) == [""]
  {
  }
}
