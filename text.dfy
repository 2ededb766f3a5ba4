/**
  The JavaScript string operations the job relies on: `toLowerCase`, `trim`,
  `replace(/\s/g, '')`, `replace(/"/g, '')`, `includes`, `split` on one character, and
  number-to-decimal conversion inside template strings.

  A Dafny `string` is a sequence of Unicode scalar values, while a JavaScript string is a
  sequence of UTF-16 code units. The separators (`,`, `\n`, `#`, `/`), the quote and every
  whitespace character used here lie in the Basic Multilingual Plane and are not
  surrogates, so each is one code unit in JavaScript and one `char` here; searching for
  them, removing them and splitting on them give the same result under both readings.
*/
module Text {

  /** The space characters outside Latin-1's control and ASCII range. */
  const WideSpaces: seq<char> := [
    '\U{00A0}', '\U{1680}',
    '\U{2000}', '\U{2001}', '\U{2002}', '\U{2003}', '\U{2004}', '\U{2005}',
    '\U{2006}', '\U{2007}', '\U{2008}', '\U{2009}', '\U{200A}',
    '\U{2028}', '\U{2029}', '\U{202F}', '\U{205F}', '\U{3000}', '\U{FEFF}']

  /** The characters matched by `\s` in a JavaScript regular expression and removed by
      `String.prototype.trim`: WhiteSpace and LineTerminator of ECMAScript. Below U+00A0
      they are the blank and the controls tab, line feed, vertical tab, form feed and
      carriage return (U+0009 to U+000D). */
  predicate IsJsSpace(c: char)
  {
    if c < '\U{00A0}' then c == ' ' || '\t' <= c <= '\r' else c in WideSpaces
  }

  predicate IsUpper(c: char) { 'A' <= c <= 'Z' }

  function LowerChar(c: char): (r: char)
    ensures !IsUpper(r)
    ensures IsUpper(c) ==> r as int == c as int + 32
    ensures !IsUpper(c) ==> r == c
  {
    if IsUpper(c) then (c as int + 32) as char else c
  }

  /** `s.toLowerCase()`, restricted to the ASCII letters. */
  function Lower(s: string): (r: string)
    ensures |r| == |s|
    ensures forall i :: 0 <= i < |s| ==> r[i] == LowerChar(s[i])
  {
    seq(|s|, i requires 0 <= i < |s| => LowerChar(s[i]))
  }

  /** `s.includes(sub)`: `sub` occurs somewhere in `s`. */
  predicate Contains(s: string, sub: string)
    decreases |s|
  {
    sub <= s || (s != [] && Contains(s[1..], sub))
  }

  /** `sub` occurs in `s` starting at position `i`. */
  predicate OccursAt(s: string, sub: string, i: int)
  {
    0 <= i <= |s| - |sub| && s[i..i + |sub|] == sub
  }

  /** An occurrence at the start is a prefix; a later one is an occurrence in the tail. */
  lemma OccursShift(s: string, sub: string, i: int)
    requires s != []
    ensures OccursAt(s, sub, 0) <==> sub <= s
    ensures i > 0 ==> (OccursAt(s, sub, i) <==> OccursAt(s[1..], sub, i - 1))
  {
    if i > 0 && 0 <= i <= |s| - |sub| {
      assert s[i..i + |sub|] == s[1..][i - 1..i - 1 + |sub|];
    }
  }

  /** Contains agrees with the positional definition of a substring occurrence. */
  lemma {:induction false} ContainsIff(s: string, sub: string)
    ensures Contains(s, sub) <==> exists i :: OccursAt(s, sub, i)
    decreases |s|
  {
    if s == [] {
      if sub == [] {
        assert OccursAt(s, sub, 0);
      }
    } else {
      ContainsIff(s[1..], sub);
      OccursShift(s, sub, 0);
      if Contains(s, sub) {
        if sub <= s {
          assert OccursAt(s, sub, 0);
        } else {
          var i :| OccursAt(s[1..], sub, i);
          OccursShift(s, sub, i + 1);
        }
      }
      if exists i :: OccursAt(s, sub, i) {
        var i :| OccursAt(s, sub, i);
        OccursShift(s, sub, i);
        if i > 0 {
          assert OccursAt(s[1..], sub, i - 1);
        }
      }
    }
  }

  /** `s.replace(/"/g, '')` and similar: every occurrence of `c` removed. */
  function RemoveChar(s: string, c: char): (r: string)
    ensures c !in r
    ensures |r| <= |s|
    ensures forall x :: x in r <==> x in s && x != c
  {
    if s == [] then []
    else if s[0] == c then RemoveChar(s[1..], c)
    else [s[0]] + RemoveChar(s[1..], c)
  }

  /** `s.replace(/\s/g, '')`: every whitespace character removed. */
  function StripSpace(s: string): (r: string)
    ensures forall i :: 0 <= i < |r| ==> !IsJsSpace(r[i])
    ensures |r| <= |s|
  {
    if s == [] then []
    else if IsJsSpace(s[0]) then StripSpace(s[1..])
    else [s[0]] + StripSpace(s[1..])
  }

  /** Removing whitespace adds no character. */
  lemma {:induction false} StripSpaceFrom(s: string)
    ensures forall i :: 0 <= i < |StripSpace(s)| ==> StripSpace(s)[i] in s
  {
    if s != [] {
      StripSpaceFrom(s[1..]);
    }
  }

  /** Removing whitespace keeps every other character. */
  lemma {:induction false} StripSpaceKeeps(s: string, c: char)
    requires c in s && !IsJsSpace(c)
    ensures c in StripSpace(s)
  {
    if s[0] != c {
      StripSpaceKeeps(s[1..], c);
    }
  }

  /** Removing a character works piece by piece: order and repetitions are kept. */
  lemma {:induction false} RemoveCharConcat(a: string, b: string, c: char)
    ensures RemoveChar(a + b, c) == RemoveChar(a, c) + RemoveChar(b, c)
  {
    if a == [] {
      assert a + b == b;
    } else {
      var x, t := a[0], a[1..];
      RemoveCharConcat(t, b, c);
      assert a == [x] + t && a + b == [x] + (t + b);
      RemoveCharCons(x, t, c);
      RemoveCharCons(x, t + b, c);
    }
  }

  /** One step of `RemoveChar`. */
  lemma RemoveCharCons(x: char, t: string, c: char)
    ensures RemoveChar([x] + t, c) == (if x == c then [] else [x]) + RemoveChar(t, c)
  {
    assert ([x] + t)[1..] == t;
  }

  /** On one character: the removed character disappears, any other stays. */
  lemma RemoveCharSingle(x: char, c: char)
    ensures RemoveChar([x], c) == if x == c then [] else [x]
  {
    RemoveCharCons(x, [], c);
    assert [x] + [] == [x];
  }

  /** Removing whitespace works piece by piece: order and repetitions are kept. */
  lemma {:induction false} StripSpaceConcat(a: string, b: string)
    ensures StripSpace(a + b) == StripSpace(a) + StripSpace(b)
  {
    if a == [] {
      assert a + b == b;
    } else {
      var x, t := a[0], a[1..];
      StripSpaceConcat(t, b);
      assert a == [x] + t && a + b == [x] + (t + b);
      StripSpaceCons(x, t);
      StripSpaceCons(x, t + b);
    }
  }

  /** One step of `StripSpace`. */
  lemma StripSpaceCons(x: char, t: string)
    ensures StripSpace([x] + t) == (if IsJsSpace(x) then [] else [x]) + StripSpace(t)
  {
    assert ([x] + t)[1..] == t;
  }

  /** On one character: whitespace disappears, any other character stays. */
  lemma StripSpaceSingle(x: char)
    ensures StripSpace([x]) == if IsJsSpace(x) then [] else [x]
  {
    StripSpaceCons(x, []);
    assert [x] + [] == [x];
  }

  /** Lower-casing works piece by piece. */
  lemma LowerConcat(a: string, b: string)
    ensures Lower(a + b) == Lower(a) + Lower(b)
  {
  }

  /** Leading whitespace removed: the result is a suffix of `s` that does not start with a
      space. */
  function TrimStart(s: string): (r: string)
    ensures |r| <= |s| && r == s[|s| - |r|..]
    ensures r == [] || !IsJsSpace(r[0])
  {
    if s != [] && IsJsSpace(s[0]) then TrimStart(s[1..]) else s
  }

  /** Trailing whitespace removed: the result is a prefix of `s` that does not end with a
      space. */
  function TrimEnd(s: string): (r: string)
    ensures |r| <= |s| && r == s[..|r|]
    ensures r == [] || !IsJsSpace(r[|r| - 1])
  {
    if s != [] && IsJsSpace(s[|s| - 1]) then TrimEnd(s[..|s| - 1]) else s
  }

  /** `s.trim()`: the text between the leading and the trailing whitespace, which
      neither begins nor ends with a space. */
  function Trim(s: string): (r: string)
    ensures |r| <= |s|
    ensures r == [] || (!IsJsSpace(r[0]) && !IsJsSpace(r[|r| - 1]))
  {
    TrimEnd(TrimStart(s))
  }

  /** All that `TrimStart` cuts is whitespace. */
  lemma {:induction false} TrimStartCuts(s: string)
    ensures forall k :: 0 <= k < |s| - |TrimStart(s)| ==> IsJsSpace(s[k])
  {
    if s != [] && IsJsSpace(s[0]) {
      TrimStartCuts(s[1..]);
      forall k | 1 <= k < |s| - |TrimStart(s)| ensures IsJsSpace(s[k]) {
        assert s[k] == s[1..][k - 1];
      }
    }
  }

  /** All that `TrimEnd` cuts is whitespace. */
  lemma {:induction false} TrimEndCuts(s: string)
    ensures forall k :: |TrimEnd(s)| <= k < |s| ==> IsJsSpace(s[k])
  {
    if s != [] && IsJsSpace(s[|s| - 1]) {
      TrimEndCuts(s[..|s| - 1]);
      forall k | |TrimEnd(s)| <= k < |s| - 1 ensures IsJsSpace(s[k]) {
        assert s[k] == s[..|s| - 1][k];
      }
    }
  }

  /** Trimming keeps the slice of `s` that starts after the leading whitespace. */
  lemma TrimSlice(s: string)
    ensures var off, r := |s| - |TrimStart(s)|, Trim(s);
      off + |r| <= |s| && r == s[off..off + |r|]
  {
    var t := TrimStart(s);
    var r := TrimEnd(t);
    assert Trim(s) == r;
    PrefixOfSuffix(s, t, r);
  }

  /** A prefix of a suffix of `s` is a slice of `s`. */
  lemma PrefixOfSuffix(s: string, t: string, r: string)
    requires |t| <= |s| && t == s[|s| - |t|..]
    requires |r| <= |t| && r == t[..|r|]
    ensures r == s[|s| - |t|..|s| - |t| + |r|]
  {
  }

  /** Trimming introduces no character: one absent from `s` is absent from `s.trim()`. */
  lemma TrimKeepsOut(s: string, c: char)
    requires c !in s
    ensures c !in Trim(s)
  {
    TrimSlice(s);
  }

  /** Trimming cuts only whitespace, at the two ends. */
  lemma TrimCuts(s: string)
    ensures var off, r := |s| - |TrimStart(s)|, Trim(s);
      (forall k :: 0 <= k < off ==> IsJsSpace(s[k])) &&
      (forall k :: off + |r| <= k < |s| ==> IsJsSpace(s[k]))
  {
    var t := TrimStart(s);
    var off := |s| - |t|;
    TrimStartCuts(s);
    TrimEndCuts(t);
    forall k | off + |Trim(s)| <= k < |s| ensures IsJsSpace(s[k]) {
      assert s[k] == t[k - off];
    }
  }

  /** `s.split(sep)` for a one-character separator: at least one part, and a part for
      every separator plus one. */
  function Split(s: string, sep: char): (parts: seq<string>)
    ensures |parts| >= 1
    ensures forall k :: 0 <= k < |parts| ==> sep !in parts[k]
    ensures sep in s <==> |parts| >= 2
    ensures sep !in s ==> parts == [s]
  {
    if s == [] then [""]
    else
      var rest := Split(s[1..], sep);
      if s[0] == sep then [""] + rest
      else
        assert s == [s[0]] + s[1..];
        [[s[0]] + rest[0]] + rest[1..]
  }

  /** `parts.join(sep)`. */
  function Join(parts: seq<string>, sep: char): string
    requires |parts| >= 1
  {
    if |parts| == 1 then parts[0] else parts[0] + [sep] + Join(parts[1..], sep)
  }

  /** Splitting loses nothing: joining the parts with the separator gives back the text. */
  lemma {:induction false} JoinSplit(s: string, sep: char)
    ensures Join(Split(s, sep), sep) == s
  {
    if s != [] {
      var t := s[1..];
      JoinSplit(t, sep);
      assert s == [s[0]] + t;
      SplitCons(s[0], t, sep);
      var rest := Split(t, sep);
      if s[0] == sep {
        assert ([""] + rest)[1..] == rest;
      } else {
        JoinGrowFirst(s[0], rest, sep);
      }
    }
  }

  /** Putting a character in front of the first part puts it in front of the joined text. */
  lemma JoinGrowFirst(c: char, parts: seq<string>, sep: char)
    requires |parts| >= 1
    ensures Join([[c] + parts[0]] + parts[1..], sep) == [c] + Join(parts, sep)
  {
    var grown := [[c] + parts[0]] + parts[1..];
    if |parts| > 1 {
      assert grown[1..] == parts[1..];
    }
  }

  predicate IsDigit(c: char) { '0' <= c <= '9' }

  function DigitChar(d: nat): (c: char)
    requires d < 10
    ensures IsDigit(c) && c as int - '0' as int == d
  {
    (d + '0' as int) as char
  }

  /** A non-negative number written in decimal, as `${n}` does. */
  function NatToString(n: nat): (r: string)
    ensures |r| >= 1
    ensures forall i :: 0 <= i < |r| ==> IsDigit(r[i])
  {
    if n < 10 then [DigitChar(n)] else NatToString(n / 10) + [DigitChar(n % 10)]
  }

  /** Reading a string of decimal digits back as a number. */
  function ParseDigits(s: string): int
    requires forall i :: 0 <= i < |s| ==> IsDigit(s[i])
  {
    if s == [] then 0 else 10 * ParseDigits(s[..|s| - 1]) + (s[|s| - 1] as int - '0' as int)
  }

  /** The decimal text of a number reads back as that number. */
  lemma {:induction false} ParseNatToString(n: nat)
    ensures ParseDigits(NatToString(n)) == n
  {
    if n >= 10 {
      ParseNatToString(n / 10);
      var s := NatToString(n);
      assert s[..|s| - 1] == NatToString(n / 10);
    }
  }

  /** Splitting a text whose first part has no separator peels that part off. */
  lemma {:induction false} SplitPrefix(a: string, sep: char, b: string)
    requires sep !in a
    ensures Split(a + [sep] + b, sep) == [a] + Split(b, sep)
  {
    if a == [] {
      assert a + [sep] + b == [sep] + b;
      SplitCons(sep, b, sep);
    } else {
      var t := a[1..] + [sep] + b;
      SplitPrefix(a[1..], sep, b);
      assert a + [sep] + b == [a[0]] + t;
      SplitCons(a[0], t, sep);
      assert [a[0]] + a[1..] == a;
    }
  }

  /** One step of `Split`: a leading separator starts a new part, any other character
      joins the first part. */
  lemma SplitCons(c: char, t: string, sep: char)
    ensures var rest := Split(t, sep);
      Split([c] + t, sep) == if c == sep then [""] + rest else [[c] + rest[0]] + rest[1..]
  {
    assert ([c] + t)[1..] == t;
  }

  /** Three separator-free texts joined by the separator split back into those three. */
  lemma SplitThree(x: string, y: string, z: string, sep: char)
    requires sep !in x && sep !in y && sep !in z
    ensures Split(x + [sep] + y + [sep] + z, sep) == [x, y, z]
  {
    assert x + [sep] + y + [sep] + z == x + [sep] + (y + [sep] + z);
    SplitPrefix(x, sep, y + [sep] + z);
    SplitPrefix(y, sep, z);
  }

  /** A decimal number contains no separator such as `/` or `-`. */
  lemma DigitsHaveNo(n: nat, c: char)
    requires !IsDigit(c)
    ensures c !in NatToString(n)
  {
  }
}
