/** The pieces of Go's `strings` and `strconv` packages that the patch applier
    relies on, on strings of characters (ASCII where Go is Unicode-aware). */
module GoStrings {
  import opened Values

  const MinInt64: int := -0x8000_0000_0000_0000
  const MaxInt64: int := 0x7FFF_FFFF_FFFF_FFFF

  /** Position of the first occurrence of `c` in `s` (`strings.IndexByte`). */
  function IndexOf(s: string, c: char): (r: Option<nat>)
    ensures r.None? <==> c !in s
    ensures r.Some? ==> r.value < |s| && s[r.value] == c && c !in s[..r.value]
  {
    if s == [] then None
    else if s[0] == c then Some(0)
    else match IndexOf(s[1..], c)
      case None => None
      case Some(i) =>
        assert s[..i + 1] == [s[0]] + s[1..][..i];
        Some(i + 1)
  }

  /** `strings.TrimLeft(s, string(c))`: drops every leading `c`. */
  function TrimLeft(s: string, c: char): (r: string)
    ensures |r| <= |s| && r == s[|s| - |r|..]
    ensures r == [] || r[0] != c
    ensures forall i | 0 <= i < |s| - |r| :: s[i] == c
    decreases |s|
  {
    if s != [] && s[0] == c then TrimLeft(s[1..], c) else s
  }

  /** `strings.TrimRight(s, string(c))`: drops every trailing `c`. */
  function TrimRight(s: string, c: char): (r: string)
    ensures |r| <= |s| && r == s[..|r|]
    ensures r == [] || r[|r| - 1] != c
    ensures forall i | |r| <= i < |s| :: s[i] == c
    decreases |s|
  {
    if s != [] && s[|s| - 1] == c then TrimRight(s[..|s| - 1], c) else s
  }

  /** `r` occurs in `s` at position `i`. */
  predicate OccursAt(r: string, s: string, i: int)
  {
    0 <= i <= |s| - |r| && s[i..i + |r|] == r
  }

  /** `strings.Trim(s, string(c))`: `s` without its leading and trailing
      `c`s, the infix of `s` that neither starts nor ends with `c` and is
      surrounded by nothing but `c`s. */
  function Trim(s: string, c: char): (r: string)
    ensures r == [] || (r[0] != c && r[|r| - 1] != c)
    ensures exists i :: && OccursAt(r, s, i)
                        && (forall j | 0 <= j < i :: s[j] == c)
                        && (forall j | i + |r| <= j < |s| :: s[j] == c)
  {
    var left := TrimLeft(s, c);
    var r := TrimRight(left, c);
    var i := |s| - |left|;
    assert r != [] ==> r[0] == left[0];
    assert s[i..i + |r|] == r by {
      assert s[i..] == left;
      assert left[..|r|] == r;
    }
    assert OccursAt(r, s, i);
    r
  }

  /** `strings.SplitN(s, string(sep), 2)`: `s` cut at its first `sep`, or `[s]`
      when there is none. */
  function SplitN2(s: string, sep: char): (parts: seq<string>)
    ensures 1 <= |parts| <= 2
    ensures sep !in parts[0]
    ensures |parts| == 1 <==> sep !in s
    ensures |parts| == 1 ==> parts[0] == s
    ensures |parts| == 2 ==> s == parts[0] + [sep] + parts[1]
  {
    match IndexOf(s, sep)
    case None => [s]
    case Some(i) =>
      assert s == s[..i] + [sep] + s[i + 1..];
      [s[..i], s[i + 1..]]
  }

  /** `strings.Split(s, string(sep))`: every piece between separators. */
  function Split(s: string, sep: char): (parts: seq<string>)
    ensures |parts| >= 1
    ensures forall i | 0 <= i < |parts| :: sep !in parts[i]
    decreases |s|
  {
    match IndexOf(s, sep)
    case None => [s]
    case Some(i) => [s[..i]] + Split(s[i + 1..], sep)
  }

  /** `strings.Join(parts, string(sep))`, the inverse of `Split`. */
  function Join(parts: seq<string>, sep: char): string
  {
    if |parts| == 0 then ""
    else if |parts| == 1 then parts[0]
    else parts[0] + [sep] + Join(parts[1..], sep)
  }

  lemma {:induction false} JoinSplit(s: string, sep: char)
    ensures Join(Split(s, sep), sep) == s
    decreases |s|
  {
    match IndexOf(s, sep)
    case None =>
    case Some(i) =>
      var rest := Split(s[i + 1..], sep);
      assert Split(s, sep) == [s[..i]] + rest;
      assert (Split(s, sep))[1..] == rest;
      JoinSplit(s[i + 1..], sep);
      assert s == s[..i] + [sep] + s[i + 1..];
  }

  lemma {:induction false} SplitJoin(parts: seq<string>, sep: char)
    requires |parts| >= 1
    requires forall i | 0 <= i < |parts| :: sep !in parts[i]
    ensures Split(Join(parts, sep), sep) == parts
    decreases |parts|
  {
    if |parts| > 1 {
      var s := Join(parts, sep);
      var tail := Join(parts[1..], sep);
      assert s == parts[0] + [sep] + tail;
      IndexOfPrefix(parts[0], sep, tail);
      assert s[..|parts[0]|] == parts[0];
      assert s[|parts[0]| + 1..] == tail;
      SplitJoin(parts[1..], sep);
    }
  }

  lemma IndexOfPrefix(a: string, c: char, b: string)
    requires c !in a
    ensures IndexOf(a + [c] + b, c) == Some(|a|)
  {
    var s := a + [c] + b;
    assert s[|a|] == c;
    assert s[..|a|] == a;
    assert forall j | 0 <= j < |a| :: s[j] == a[j];
  }

  predicate IsDigit(c: char) { '0' <= c <= '9' }

  predicate AllDigits(s: string) { forall i | 0 <= i < |s| :: IsDigit(s[i]) }

  /** The number a string of decimal digits denotes. */
  function DigitsValue(s: string): nat
    requires AllDigits(s)
  {
    if s == [] then 0
    else DigitsValue(s[..|s| - 1]) * 10 + (s[|s| - 1] as int - '0' as int)
  }

  /** `strconv.Atoi`: an optional sign followed by at least one decimal digit,
      whose value fits Go's 64-bit `int`; anything else is a syntax or range
      error (`None`). Spaces, underscores and a lone sign are all rejected. */
  function Atoi(s: string): (r: Option<int>)
    ensures r.Some? <==>
              || (|s| > 0 && AllDigits(s) && DigitsValue(s) <= MaxInt64)
              || (|s| > 1 && s[0] == '+' && AllDigits(s[1..]) && DigitsValue(s[1..]) <= MaxInt64)
              || (|s| > 1 && s[0] == '-' && AllDigits(s[1..]) && DigitsValue(s[1..]) <= -MinInt64)
    ensures r.Some? ==>
              r.value == if IsDigit(s[0]) then DigitsValue(s)
                         else if s[0] == '+' then DigitsValue(s[1..])
                         else 0 - DigitsValue(s[1..])
    ensures r.Some? ==> MinInt64 <= r.value <= MaxInt64
    ensures r.Some? ==> |s| > 0 && (IsDigit(s[0]) || s[0] == '-' || s[0] == '+')
    ensures r.Some? && |s| > 0 && IsDigit(s[0]) ==> r.value >= 0
  {
    if |s| == 0 then None
    else
      var body := if s[0] == '-' || s[0] == '+' then s[1..] else s;
      if |body| == 0 || !AllDigits(body) then None
      else
        var n: int := if s[0] == '-' then 0 - DigitsValue(body) else DigitsValue(body);
        if MinInt64 <= n <= MaxInt64 then Some(n) else None
  }

  /** `strconv.Itoa` for non-negative numbers: the canonical decimal numeral. */
  function Itoa(n: nat): (s: string)
    ensures |s| >= 1 && AllDigits(s)
  {
    if n < 10 then [('0' as int + n) as char]
    else Itoa(n / 10) + [('0' as int + n % 10) as char]
  }

  lemma {:induction false} DigitsValueItoa(n: nat)
    ensures DigitsValue(Itoa(n)) == n
  {
    var s := Itoa(n);
    if n >= 10 {
      DigitsValueItoa(n / 10);
      assert s[..|s| - 1] == Itoa(n / 10);
    }
  }

  /** Every index the navigator can meet is read back from its canonical
      numeral. */
  lemma AtoiItoa(n: nat)
    requires n <= MaxInt64
    ensures Atoi(Itoa(n)) == Some(n)
  {
    DigitsValueItoa(n);
  }

  /** Go's `unicode.ToLower`, on ASCII letters. */
  function LowerChar(c: char): char
  {
    if 'A' <= c <= 'Z' then (c as int + 32) as char else c
  }

  /** Go's `unicode.ToUpper` (and `ToTitle`), on ASCII letters. */
  function UpperChar(c: char): char
  {
    if 'a' <= c <= 'z' then (c as int - 32) as char else c
  }

  /** `strings.ToLower`. */
  function ToLower(s: string): (r: string)
    ensures |r| == |s|
    ensures forall i | 0 <= i < |s| :: r[i] == LowerChar(s[i])
  {
    if s == [] then [] else [LowerChar(s[0])] + ToLower(s[1..])
  }

  /** `hyphens.ReplaceAllString(s, "")` with the pattern `[\-_]`: `s` without
      its hyphens and underscores, the remaining characters kept in order. */
  function StripHyphens(s: string): (r: string)
    ensures |r| <= |s|
    ensures forall i | 0 <= i < |r| :: r[i] != '-' && r[i] != '_'
    ensures forall i | 0 <= i < |s| :: s[i] != '-' && s[i] != '_' ==> s[i] in r
  {
    if s == [] then []
    else if s[0] == '-' || s[0] == '_' then StripHyphens(s[1..])
    else [s[0]] + StripHyphens(s[1..])
  }

  /** Stripping works character by character: it distributes over
      concatenation ... */
  lemma {:induction false} StripHyphensAppend(a: string, b: string)
    ensures StripHyphens(a + b) == StripHyphens(a) + StripHyphens(b)
    decreases |a|
  {
    if a == [] {
      assert a + b == b;
    } else {
      assert (a + b)[0] == a[0] && (a + b)[1..] == a[1..] + b;
      StripHyphensAppend(a[1..], b);
    }
  }

  /** ... and on one character drops exactly a hyphen or an underscore. */
  lemma StripHyphensChar(c: char)
    ensures StripHyphens([c]) == if c == '-' || c == '_' then [] else [c]
  {
  }

  lemma {:induction false} StripHyphensPlain(s: string)
    requires '-' !in s && '_' !in s
    ensures StripHyphens(s) == s
  {
    if s != [] {
      assert s == [s[0]] + s[1..];
      StripHyphensPlain(s[1..]);
    }
  }

  /** The word boundary test of `strings.Title`: ASCII letters, digits and `_`
      continue a word, every other ASCII character separates words; characters
      beyond ASCII are taken as letters. */
  predicate IsSeparator(c: char)
  {
    c <= 0x7F as char && !('0' <= c <= '9' || 'a' <= c <= 'z' || 'A' <= c <= 'Z' || c == '_')
  }

  /** `strings.Title`: upper-cases the first letter of each word. `prev` is
      the character before `s` (Go starts from a space). */
  function TitleFrom(prev: char, s: string): (r: string)
    decreases |s|
    ensures |r| == |s|
    ensures forall i | 0 <= i < |s| ::
              r[i] == if IsSeparator(if i == 0 then prev else s[i - 1]) then UpperChar(s[i]) else s[i]
  {
    if s == [] then []
    else
      var tail := TitleFrom(s[0], s[1..]);
      [if IsSeparator(prev) then UpperChar(s[0]) else s[0]] + tail
  }

  function Title(s: string): (r: string)
    ensures |r| == |s|
    ensures |s| > 0 ==> r[0] == UpperChar(s[0]) && r[1..] == TitleFrom(s[0], s[1..])
  {
    TitleFrom(' ', s)
  }
}
