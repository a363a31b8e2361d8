/** The parts of Rust's `str` and integer parsing that the solvers rely on:
    `split`, `lines`, `trim`, `split_whitespace`, `char::to_digit` and
    `from_str` / `from_str_radix` for the integer widths the solvers use. */
module Text {
  import opened Wrappers

  // Integer ranges of the Rust types that inputs are parsed into.
  const U8_MAX: int := 0xFF
  const U32_MAX: int := 0xFFFF_FFFF
  const I32_MIN: int := -0x8000_0000
  const I32_MAX: int := 0x7FFF_FFFF

  /** `char::is_whitespace`: the Unicode White_Space property. */
  predicate IsWhitespace(c: char) {
    c == ' ' || ('\t' <= c <= '\r') || c == '\U{0085}' || c == '\U{00A0}' || c == '\U{1680}'
    || ('\U{2000}' <= c <= '\U{200A}') || c == '\U{2028}' || c == '\U{2029}' || c == '\U{202F}'
    || c == '\U{205F}' || c == '\U{3000}'
  }

  /** `str::trim_start`. */
  function TrimStart(s: string): (r: string)
    ensures |r| <= |s| && r == s[|s| - |r|..]
    ensures r == [] || !IsWhitespace(r[0])
    ensures forall i :: 0 <= i < |s| - |r| ==> IsWhitespace(s[i])
  {
    if s != [] && IsWhitespace(s[0]) then TrimStart(s[1..]) else s
  }

  /** `str::trim_end`. */
  function TrimEnd(s: string): (r: string)
    ensures |r| <= |s| && r == s[..|r|]
    ensures r == [] || !IsWhitespace(r[|r| - 1])
    ensures forall i :: |r| <= i < |s| ==> IsWhitespace(s[i])
  {
    if s != [] && IsWhitespace(s[|s| - 1]) then TrimEnd(s[..|s| - 1]) else s
  }

  /** `str::trim`: no leading and no trailing whitespace remains, and
      only whitespace was removed from either end. */
  function Trim(s: string): (r: string)
    ensures |r| <= |s|
    ensures r == [] || (!IsWhitespace(r[0]) && !IsWhitespace(r[|r| - 1]))
    ensures |r| <= |TrimStart(s)| && r == TrimStart(s)[..|r|]
  {
    TrimEnd(TrimStart(s))
  }

  /** Whether `sep` occurs in `s` at position `i`. */
  predicate OccursAt(s: string, sep: string, i: nat) {
    i + |sep| <= |s| && s[i..i + |sep|] == sep
  }

  /** The first position at or after `from` at which `sep` occurs in `s`. */
  function IndexFrom(s: string, sep: string, from: nat): (r: Option<nat>)
    ensures r.Some? ==> from <= r.value && OccursAt(s, sep, r.value)
    decreases |s| - from
  {
    if from + |sep| > |s| then None
    else if s[from..from + |sep|] == sep then Some(from)
    else IndexFrom(s, sep, from + 1)
  }

  /** `IndexFrom` finds the first occurrence: none lies between `from` and
      the position found, and there is none at all when nothing is found. */
  lemma {:induction false} IndexFromFirst(s: string, sep: string, from: nat, j: nat)
    requires from <= j && OccursAt(s, sep, j)
    ensures IndexFrom(s, sep, from).Some? && IndexFrom(s, sep, from).value <= j
    decreases |s| - from
  {
    if from + |sep| <= |s| && s[from..from + |sep|] != sep {
      IndexFromFirst(s, sep, from + 1, j);
    }
  }

  /** The first position at which `sep` occurs in `s`. */
  function IndexOf(s: string, sep: string): (r: Option<nat>)
    ensures r.Some? ==> OccursAt(s, sep, r.value)
  {
    IndexFrom(s, sep, 0)
  }

  /** `str::split` with a non-empty pattern: the pieces between the
      non-overlapping occurrences of `sep`, scanned from the left. */
  function Split(s: string, sep: string): (r: seq<string>)
    requires |sep| > 0
    ensures |r| >= 1
    decreases |s|
  {
    match IndexOf(s, sep)
    case None => [s]
    case Some(i) => [s[..i]] + Split(s[i + |sep|..], sep)
  }

  /** Joins pieces with a separator: the inverse of `Split`. */
  function Join(pieces: seq<string>, sep: string): string
    requires |pieces| >= 1
  {
    if |pieces| == 1 then pieces[0] else pieces[0] + sep + Join(pieces[1..], sep)
  }

  lemma JoinCons(p: string, ps: seq<string>, sep: string)
    requires |ps| >= 1
    ensures Join([p] + ps, sep) == p + sep + Join(ps, sep)
  {
    assert ([p] + ps)[1..] == ps;
  }

  /** Where `sep` first occurs, `Split` cuts `s` into the piece before it
      and the split of what follows it. */
  lemma SplitAt(s: string, sep: string, i: nat)
    requires |sep| > 0 && IndexOf(s, sep) == Some(i)
    ensures Split(s, sep) == [s[..i]] + Split(s[i + |sep|..], sep)
  {
  }

  /** An occurrence of `sep` divides `s` into what precedes and follows it. */
  lemma AroundOccurrence(s: string, sep: string, i: nat)
    requires OccursAt(s, sep, i)
    ensures s == s[..i] + sep + s[i + |sep|..]
  {
    assert s == s[..i] + s[i..i + |sep|] + s[i + |sep|..];
  }

  lemma {:induction false} JoinSplit(s: string, sep: string)
    requires |sep| > 0
    ensures Join(Split(s, sep), sep) == s
    decreases |s|
  {
    var idx := IndexOf(s, sep);
    if idx.Some? {
      var i := idx.value;
      SplitAt(s, sep, i);
      AroundOccurrence(s, sep, i);
      JoinSplit(s[i + |sep|..], sep);
      JoinCons(s[..i], Split(s[i + |sep|..], sep), sep);
    }
  }

  /** A one-character separator occurs exactly where the character does. */
  lemma AbsentSeparator(s: string, sep: string)
    requires |sep| == 1 && forall i :: 0 <= i < |s| ==> s[i] != sep[0]
    ensures IndexOf(s, sep).None?
  {
    if IndexOf(s, sep).Some? {
      FirstSeparator(s, sep);
    }
  }

  lemma FirstSeparator(s: string, sep: string)
    requires |sep| == 1 && IndexOf(s, sep).Some?
    ensures s[IndexOf(s, sep).value] == sep[0]
  {
    var j := IndexOf(s, sep).value;
    assert s[j..j + 1][0] == s[j];
  }

  /** Two pieces free of a one-character separator, joined by it, split
      back into the two pieces. */
  lemma SplitTwo(a: string, b: string, sep: string)
    requires |sep| == 1 && IndexOf(a, sep).None? && IndexOf(b, sep).None?
    ensures Split(a + sep + b, sep) == [a, b]
  {
    var s := a + sep + b;
    assert s[|a|..|a| + 1] == sep;
    IndexFromFirst(s, sep, 0, |a|);
    var j := IndexOf(s, sep).value;
    if j < |a| {
      assert a[j..j + 1] == s[j..j + 1];
      IndexFromFirst(a, sep, 0, j);
      assert false;
    }
    assert IndexOf(s, sep) == Some(|a|);
    SplitAt(s, sep, |a|);
    assert s[..|a|] == a && s[|a| + 1..] == b;
    assert Split(b, sep) == [b];
  }

  /** No piece of a split contains the separator. */
  lemma {:induction false} SplitPiecesAvoidSep(s: string, sep: string)
    requires |sep| > 0
    ensures forall k :: 0 <= k < |Split(s, sep)| ==> IndexOf(Split(s, sep)[k], sep).None?
    decreases |s|
  {
    var idx := IndexOf(s, sep);
    if idx.None? {
      forall j: nat | OccursAt(s, sep, j) ensures false {
        IndexFromFirst(s, sep, 0, j);
      }
    } else {
      var i := idx.value;
      var rest := s[i + |sep|..];
      SplitAt(s, sep, i);
      SplitPiecesAvoidSep(rest, sep);
      var p := s[..i];
      if IndexOf(p, sep).Some? {
        var j := IndexOf(p, sep).value;
        assert s[j..j + |sep|] == p[j..j + |sep|];
        IndexFromFirst(s, sep, 0, j);
        assert false;
      }
    }
  }

  /** `str::lines`: split at '\n', no final empty line after a trailing
      newline, and a '\r' dropped only where it comes right before a '\n';
      a '\r' ending a last line without a newline stays. */
  function Lines(s: string): (r: seq<string>)
    ensures s == [] ==> r == []
  {
    if s == [] then []
    else
      var pieces := Split(s, "\n");
      var kept := if pieces[|pieces| - 1] == [] then pieces[..|pieces| - 1] else pieces;
      seq(|kept|, i requires 0 <= i < |kept| => if i < |pieces| - 1 then StripCr(kept[i]) else kept[i])
  }

  function StripCr(line: string): string {
    if line != [] && line[|line| - 1] == '\r' then line[..|line| - 1] else line
  }

  /** The number of bytes a character takes in UTF-8. */
  function Utf8Width(c: char): (n: nat)
    ensures 1 <= n <= 4
  {
    if c as int < 0x80 then 1 else if c as int < 0x800 then 2 else if c as int < 0x1_0000 then 3 else 4
  }

  /** `str::len`: the length of a string in UTF-8 bytes. */
  function ByteLength(s: string): nat {
    if s == [] then 0 else ByteLength(s[..|s| - 1]) + Utf8Width(s[|s| - 1])
  }

  /** An ASCII string has one byte per character. */
  lemma {:induction false} AsciiByteLength(s: string)
    requires forall i :: 0 <= i < |s| ==> s[i] as int < 0x80
    ensures ByteLength(s) == |s|
  {
    if s != [] {
      AsciiByteLength(s[..|s| - 1]);
    }
  }

  /** A string has at least as many bytes as characters, and more exactly
      when some character is not ASCII. */
  lemma {:induction false} CharsWithinBytes(s: string)
    ensures |s| <= ByteLength(s)
    ensures ByteLength(s) == |s| <==> forall i :: 0 <= i < |s| ==> s[i] as int < 0x80
  {
    if s != [] {
      var front := s[..|s| - 1];
      CharsWithinBytes(front);
      if ByteLength(s) == |s| {
        forall i | 0 <= i < |s| ensures s[i] as int < 0x80 {
          if i < |front| {
            assert s[i] == front[i];
          }
        }
      } else if forall i :: 0 <= i < |s| ==> s[i] as int < 0x80 {
        AsciiByteLength(s);
      }
    }
  }

  /** `str::split_whitespace`: the maximal non-empty runs of non-whitespace. */
  function SplitWhitespace(s: string): seq<string>
    decreases |s|
  {
    var t := TrimStart(s);
    if t == [] then []
    else
      var n := WordLength(t);
      [t[..n]] + SplitWhitespace(t[n..])
  }

  /** Every piece `split_whitespace` yields is a word. */
  lemma {:induction false} SplitWhitespaceWords(s: string)
    ensures forall k :: 0 <= k < |SplitWhitespace(s)| ==> IsWord(SplitWhitespace(s)[k])
    decreases |s|
  {
    var t := TrimStart(s);
    if t != [] {
      var n := WordLength(t);
      var rest := SplitWhitespace(t[n..]);
      SplitWhitespaceWords(t[n..]);
      assert SplitWhitespace(s) == [t[..n]] + rest;
      forall k | 0 <= k < |rest| + 1
        ensures IsWord(([t[..n]] + rest)[k])
      {
        if k > 0 {
          assert ([t[..n]] + rest)[k] == rest[k - 1];
        }
      }
    }
  }

  /** A non-empty run of non-whitespace. */
  predicate IsWord(w: string) {
    w != [] && forall i :: 0 <= i < |w| ==> !IsWhitespace(w[i])
  }

  /** Length of the leading run of non-whitespace. */
  function WordLength(s: string): (n: nat)
    ensures n <= |s|
    ensures forall i :: 0 <= i < n ==> !IsWhitespace(s[i])
    ensures n == |s| || IsWhitespace(s[n])
  {
    if s == [] || IsWhitespace(s[0]) then 0 else 1 + WordLength(s[1..])
  }

  /** `char::to_digit(radix)` for radix 2 and 10. */
  function ToDigit(c: char, radix: nat): (r: Option<nat>)
    requires radix == 2 || radix == 10
    ensures r.Some? <==> '0' <= c <= '9' && (c as int) - ('0' as int) < radix
    ensures r.Some? ==> r.value < radix && r.value == (c as int) - ('0' as int)
  {
    if '0' <= c <= '9' && (c as int) - ('0' as int) < radix then Some((c as int) - ('0' as int)) else None
  }

  /** The value of a non-empty string of digits, most significant first. */
  function DigitsValue(s: string, radix: nat): (r: Option<nat>)
    requires radix == 2 || radix == 10
    ensures r.Some? ==> s != []
    decreases |s|
  {
    if s == [] then None
    else
      var d := ToDigit(s[|s| - 1], radix);
      if d.None? then None
      else if |s| == 1 then d
      else match DigitsValue(s[..|s| - 1], radix)
        case None => None
        case Some(v) => Some(v * radix + d.value)
  }

  /** A string has a value exactly when it is non-empty and every character
      is a digit of the radix. */
  lemma {:induction false} DigitsValueDefined(s: string, radix: nat)
    requires radix == 2 || radix == 10
    ensures DigitsValue(s, radix).Some? <==> s != [] && forall i :: 0 <= i < |s| ==> ToDigit(s[i], radix).Some?
    decreases |s|
  {
    if |s| > 1 {
      DigitsValueDefined(s[..|s| - 1], radix);
      assert forall i :: 0 <= i < |s| - 1 ==> s[..|s| - 1][i] == s[i];
    }
  }

  /** `from_str_radix` into an integer type whose range is `lo..=hi`:
      an optional '+' (or '-' when the type is signed), at least one digit,
      and a value inside the range. */
  function ParseIntRadix(s: string, radix: nat, lo: int, hi: int): (r: Option<int>)
    requires radix == 2 || radix == 10
    ensures r.Some? ==> lo <= r.value <= hi
  {
    if s == [] then None
    else
      var negative := s[0] == '-' && lo < 0;
      var digits := if s[0] == '+' || negative then s[1..] else s;
      match DigitsValue(digits, radix)
      case None => None
      case Some(v) =>
        var value: int := if negative then -(v as int) else v;
        if lo <= value <= hi then Some(value) else None
  }

  /** `str::parse` into an integer type with range `lo..=hi`. */
  function ParseInt(s: string, lo: int, hi: int): (r: Option<int>)
    ensures r.Some? ==> lo <= r.value <= hi
  {
    ParseIntRadix(s, 10, lo, hi)
  }

  /** Parsing every word into an integer type with range `lo..=hi`,
      collecting into a `Result`: the first word that does not parse makes
      the whole parse fail. */
  function ParseAll(words: seq<string>, lo: int, hi: int): (r: Result<seq<int>>)
    ensures r.Ok? <==> forall i :: 0 <= i < |words| ==> ParseInt(words[i], lo, hi).Some?
    ensures r.Ok? ==> |r.value| == |words|
    ensures r.Ok? ==> forall i :: 0 <= i < |words| ==> ParseInt(words[i], lo, hi) == Some(r.value[i])
  {
    if words == [] then Ok([])
    else
      match ParseInt(words[|words| - 1], lo, hi)
      case None => Err
      case Some(v) =>
        match ParseAll(words[..|words| - 1], lo, hi)
        case Err => Err
        case Ok(front) => Ok(front + [v])
  }

  /** Decimal digits of a natural number, most significant first. */
  function Decimal(n: nat): (r: string)
    ensures r != [] && forall i :: 0 <= i < |r| ==> '0' <= r[i] <= '9'
  {
    if n < 10 then [DigitChar(n)] else Decimal(n / 10) + [DigitChar(n % 10)]
  }

  function DigitChar(d: nat): (c: char)
    requires d < 10
    ensures '0' <= c <= '9' && (c as int) - ('0' as int) == d
  {
    (('0' as int) + d) as char
  }

  lemma {:induction false} DigitsValueOfDecimal(n: nat)
    ensures DigitsValue(Decimal(n), 10) == Some(n)
  {
    if n >= 10 {
      DigitsValueOfDecimal(n / 10);
      var s := Decimal(n);
      assert s[..|s| - 1] == Decimal(n / 10);
    }
  }

  /** An unsigned string of digits parses to its value when in range. */
  lemma ParseDigits(digits: string, v: nat, lo: int, hi: int)
    requires DigitsValue(digits, 10) == Some(v) && '0' <= digits[0] <= '9' && lo <= v <= hi
    ensures ParseInt(digits, lo, hi) == Some(v)
  {
  }

  /** A '-' followed by digits parses to the negated value when in range. */
  lemma ParseNegated(digits: string, v: nat, lo: int, hi: int)
    requires DigitsValue(digits, 10) == Some(v) && lo < 0 && lo <= -(v as int) <= hi
    ensures ParseInt("-" + digits, lo, hi) == Some(-(v as int))
  {
    assert ("-" + digits)[0] == '-' && ("-" + digits)[1..] == digits;
  }

  /** Parsing the decimal rendering of an in-range value gives the value back. */
  lemma ParseDecimal(n: int, lo: int, hi: int)
    requires lo <= n <= hi
    ensures ParseInt(if n < 0 then "-" + Decimal(-n) else Decimal(n), lo, hi) == Some(n)
  {
    if n < 0 {
      DigitsValueOfDecimal(-n);
      ParseNegated(Decimal(-n), -n, lo, hi);
    } else {
      DigitsValueOfDecimal(n);
      ParseDigits(Decimal(n), n, lo, hi);
    }
  }

  /** Parsing fails on any string holding a character that is neither a
      digit nor a leading sign. */
  lemma ParseRejectsNonDigit(s: string, lo: int, hi: int, k: nat)
    requires 0 < k < |s| && !('0' <= s[k] <= '9')
    ensures ParseInt(s, lo, hi).None?
  {
    var negative := s[0] == '-' && lo < 0;
    var digits := if s[0] == '+' || negative then s[1..] else s;
    var j := if s[0] == '+' || negative then k - 1 else k;
    assert digits[j] == s[k];
    DigitsValueDefined(digits, 10);
  }
}
