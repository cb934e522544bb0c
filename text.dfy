/**
 * The JavaScript string built-ins the calendar code relies on, by their meaning:
 * `includes`, `indexOf`, `split` and `join` with a string separator, `trim`,
 * `toLowerCase` (on the characters that can change an ASCII substring test),
 * `padStart` with zeros, and decimal printing of integers.
 */
module Text {
  import opened Wrappers

  /** `p` occurs in `s` starting at index `i`. */
  predicate OccursAt(s: string, p: string, i: nat) {
    i + |p| <= |s| && s[i..i + |p|] == p
  }

  /** `s.indexOf(p, from)`: the first index at or after `from` where `p` occurs. */
  function IndexOfFrom(s: string, p: string, from: nat): (r: Option<nat>)
    ensures r.Some? ==> from <= r.value && OccursAt(s, p, r.value)
    ensures r.Some? ==> forall j: nat :: from <= j < r.value ==> !OccursAt(s, p, j)
    ensures r.None? ==> forall j: nat :: from <= j ==> !OccursAt(s, p, j)
    decreases |s| - from
  {
    if from + |p| > |s| then None
    else if s[from..from + |p|] == p then Some(from)
    else IndexOfFrom(s, p, from + 1)
  }

  /** `s.includes(p)`. */
  predicate Contains(s: string, p: string) {
    ContainsFrom(s, p, 0)
  }

  /** `p` occurs in `s` at some index at or after `from`. */
  predicate ContainsFrom(s: string, p: string, from: nat)
    decreases |s| - from
  {
    from + |p| <= |s| && (s[from..from + |p|] == p || ContainsFrom(s, p, from + 1))
  }

  lemma {:induction false} ContainsFromIndexOf(s: string, p: string, from: nat)
    ensures ContainsFrom(s, p, from) <==> IndexOfFrom(s, p, from).Some?
    decreases |s| - from
  {
    if from + |p| <= |s| && s[from..from + |p|] != p {
      ContainsFromIndexOf(s, p, from + 1);
    }
  }

  /** `includes` agrees with `indexOf` and with the existence of an occurrence. */
  lemma ContainsIff(s: string, p: string)
    ensures Contains(s, p) <==> IndexOfFrom(s, p, 0).Some?
    ensures Contains(s, p) <==> exists i: nat :: OccursAt(s, p, i)
  {
    ContainsFromIndexOf(s, p, 0);
  }

  lemma ContainsAt(s: string, p: string, i: nat)
    requires OccursAt(s, p, i)
    ensures Contains(s, p)
  {
    ContainsIff(s, p);
  }

  /** A string with no character `c` contains no pattern that starts with `c`. */
  lemma NotContainsWithoutFirstChar(s: string, p: string)
    requires |p| > 0 && p[0] !in s
    ensures !Contains(s, p)
  {
    forall i: nat ensures !OccursAt(s, p, i) {
      if i + |p| <= |s| {
        assert s[i..i + |p|][0] == s[i];
      }
    }
    ContainsIff(s, p);
  }

  /** A one-character pattern is contained exactly when its character is present. */
  lemma CharNotContained(s: string, c: char)
    requires !Contains(s, [c])
    ensures c !in s
  {
    ContainsIff(s, [c]);
    forall i | 0 <= i < |s| ensures s[i] != c {
      assert s[i..i + 1] == [s[i]];
      assert !OccursAt(s, [c], i);
    }
  }

  /** A string that lacks one character of `p` does not contain `p`. */
  lemma NotContainsCharAbsent(s: string, p: string, k: nat)
    requires k < |p| && p[k] !in s
    ensures !Contains(s, p)
  {
    forall i: nat ensures !OccursAt(s, p, i) {
      if i + |p| <= |s| {
        assert s[i..i + |p|][k] == s[i + k];
      }
    }
    ContainsIff(s, p);
  }

  /** `s.split(sep)` for a non-empty separator: the pieces between the
      non-overlapping occurrences of `sep`, scanning from the left. */
  function Split(s: string, sep: string): (parts: seq<string>)
    requires |sep| > 0
    ensures |parts| >= 1
    decreases |s|
  {
    match IndexOfFrom(s, sep, 0)
    case None => [s]
    case Some(i) => [s[..i]] + Split(s[i + |sep|..], sep)
  }

  /** `parts.join(sep)`. */
  function Join(parts: seq<string>, sep: string): string
    decreases |parts|
  {
    if |parts| == 0 then ""
    else if |parts| == 1 then parts[0]
    else parts[0] + sep + Join(parts[1..], sep)
  }

  /** Joining the pieces of a split with the same separator gives the string back. */
  lemma {:induction false} JoinSplit(s: string, sep: string)
    requires |sep| > 0
    ensures Join(Split(s, sep), sep) == s
    decreases |s|
  {
    var r := IndexOfFrom(s, sep, 0);
    if r.Some? {
      var i := r.value;
      var rest := s[i + |sep|..];
      assert Split(s, sep) == [s[..i]] + Split(rest, sep);
      JoinSplit(rest, sep);
      JoinCons(s[..i], Split(rest, sep), sep);
      assert s == s[..i] + s[i..i + |sep|] + rest;
    }
  }

  lemma JoinCons(a: string, parts: seq<string>, sep: string)
    requires |parts| >= 1
    ensures Join([a] + parts, sep) == a + sep + Join(parts, sep)
  {
    assert ([a] + parts)[1..] == parts;
  }

  /** A join opens with the first part and ends with the last one. */
  lemma {:induction false} JoinEnds(parts: seq<string>, sep: string)
    requires |parts| >= 1
    ensures var j := Join(parts, sep);
      var last := parts[|parts| - 1];
      |parts[0]| <= |j| && j[..|parts[0]|] == parts[0]
      && |last| <= |j| && j[|j| - |last|..] == last
    decreases |parts|
  {
    if |parts| > 1 {
      var rest := Join(parts[1..], sep);
      JoinEnds(parts[1..], sep);
      var j := parts[0] + sep + rest;
      assert j[..|parts[0]|] == parts[0];
      assert j[|j| - |rest|..] == rest;
    }
  }

  /** No piece of a split contains the separator. */
  lemma {:induction false} SplitPiecesLackSeparator(s: string, sep: string)
    requires |sep| > 0
    ensures forall k :: 0 <= k < |Split(s, sep)| ==> !Contains(Split(s, sep)[k], sep)
    decreases |s|
  {
    match IndexOfFrom(s, sep, 0)
    case None =>
      ContainsIff(s, sep);
    case Some(i) =>
      var rest := s[i + |sep|..];
      SplitPiecesLackSeparator(rest, sep);
      var head := s[..i];
      forall j: nat ensures !OccursAt(head, sep, j) {
        if j + |sep| <= |head| {
          assert head[j..j + |sep|] == s[j..j + |sep|];
          assert !OccursAt(s, sep, j);
        }
      }
      ContainsIff(head, sep);
      assert Split(s, sep) == [head] + Split(rest, sep);
  }

  /** If `sep` first occurs at `k` because no earlier character can start it,
      `indexOf` finds `k`. */
  lemma IndexOfFirstChar(s: string, sep: string, k: nat)
    requires |sep| > 0 && OccursAt(s, sep, k)
    requires forall j :: 0 <= j < k ==> s[j] != sep[0]
    ensures IndexOfFrom(s, sep, 0) == Some(k)
  {
    forall j: nat | j < k ensures !OccursAt(s, sep, j) {
      if j + |sep| <= |s| {
        assert s[j..j + |sep|][0] == s[j];
      }
    }
  }

  /** Splitting a join gives the parts back when no part holds the separator's
      first character. */
  lemma {:induction false} SplitJoin(parts: seq<string>, sep: string)
    requires |sep| > 0 && |parts| >= 1
    requires forall k :: 0 <= k < |parts| ==> sep[0] !in parts[k]
    ensures Split(Join(parts, sep), sep) == parts
    decreases |parts|
  {
    if |parts| == 1 {
      NotContainsWithoutFirstChar(parts[0], sep);
    } else {
      var s := Join(parts, sep);
      var rest := Join(parts[1..], sep);
      assert s == parts[0] + sep + rest;
      var k := |parts[0]|;
      assert s[k..k + |sep|] == sep;
      forall j | 0 <= j < k ensures s[j] != sep[0] {
        assert s[j] == parts[0][j];
      }
      IndexOfFirstChar(s, sep, k);
      assert s[..k] == parts[0];
      assert s[k + |sep|..] == rest;
      SplitJoin(parts[1..], sep);
    }
  }

  /** Before the first occurrence of a one-character pattern, no character is it. */
  lemma CharAbsentBefore(a: string, c: char, i: nat)
    requires i <= |a|
    requires forall j: nat :: j < i ==> !OccursAt(a, [c], j)
    ensures forall j :: 0 <= j < i ==> a[j] != c
  {
    forall j | 0 <= j < i ensures a[j] != c {
      assert a[j..j + 1] == [a[j]];
      assert !OccursAt(a, [c], j);
    }
  }

  /** The first `c` of `a + [c] + b` is the first `c` of `a`, or the added one. */
  lemma IndexOfConcat(a: string, b: string, c: char)
    ensures IndexOfFrom(a + [c] + b, [c], 0)
      == if IndexOfFrom(a, [c], 0).Some? then IndexOfFrom(a, [c], 0) else Some(|a|)
  {
    var s := a + [c] + b;
    var i := if IndexOfFrom(a, [c], 0).Some? then IndexOfFrom(a, [c], 0).value else |a|;
    CharAbsentBefore(a, c, i);
    forall j | 0 <= j < i ensures s[j] != c {
      assert s[j] == a[j];
    }
    assert OccursAt(s, [c], i) by {
      if i < |a| {
        assert a[i..i + 1] == s[i..i + 1];
      } else {
        assert s[i..i + 1] == [c];
      }
    }
    IndexOfFirstChar(s, [c], i);
  }

  /** For a one-character separator the pieces of `a + sep + b` are those of
      `a` followed by those of `b`. */
  lemma {:induction false} SplitConcat(a: string, b: string, c: char)
    ensures Split(a + [c] + b, [c]) == Split(a, [c]) + Split(b, [c])
    decreases |a|
  {
    var s := a + [c] + b;
    IndexOfConcat(a, b, c);
    match IndexOfFrom(a, [c], 0)
    case None =>
      assert s[..|a|] == a;
      assert s[|a| + 1..] == b;
    case Some(i) =>
      var rest := a[i + 1..];
      assert s[..i] == a[..i];
      assert s[i + 1..] == rest + [c] + b;
      SplitConcat(rest, b, c);
  }

  // ---------------------------------------------------------------- trim

  /** The characters `String.prototype.trim` removes: ECMAScript WhiteSpace
      (tab, vertical tab, form feed, space, no-break space, byte order mark and
      the space separators) and LineTerminator. */
  predicate IsWhiteSpace(c: char) {
    c == '\t' || c == '\n' || c == '\U{000B}' || c == '\U{000C}' || c == '\r' || c == ' '
    || c == '\U{00A0}' || c == '\U{1680}' || ('\U{2000}' <= c <= '\U{200A}')
    || c == '\U{2028}' || c == '\U{2029}' || c == '\U{202F}' || c == '\U{205F}'
    || c == '\U{3000}' || c == '\U{FEFF}'
  }

  /** `trimStart`: drops the leading white space, leaving a suffix. */
  function TrimStart(s: string): (r: string)
    ensures |r| <= |s|
  {
    if |s| > 0 && IsWhiteSpace(s[0]) then TrimStart(s[1..]) else s
  }

  /** `trimEnd`: drops the trailing white space, leaving a prefix. */
  function TrimEnd(s: string): (r: string)
    ensures |r| <= |s|
  {
    if |s| > 0 && IsWhiteSpace(s[|s| - 1]) then TrimEnd(s[..|s| - 1]) else s
  }

  /** `s.trim()`: the slice of `s` left after removing leading and trailing
      white space. */
  function Trim(s: string): (r: string)
  {
    TrimEnd(TrimStart(s))
  }

  /** What `trimStart` drops is white space, and what it keeps does not
      start with white space. */
  lemma {:induction false} TrimStartFacts(s: string)
    ensures TrimStart(s) == s[|s| - |TrimStart(s)|..]
    ensures forall k :: 0 <= k < |s| - |TrimStart(s)| ==> IsWhiteSpace(s[k])
    ensures |TrimStart(s)| > 0 ==> !IsWhiteSpace(TrimStart(s)[0])
  {
    if |s| > 0 && IsWhiteSpace(s[0]) {
      TrimStartFacts(s[1..]);
      forall k | 0 < k < |s| - |TrimStart(s)| ensures IsWhiteSpace(s[k]) {
        assert s[k] == s[1..][k - 1];
      }
    }
  }

  /** What `trimEnd` drops is white space, and what it keeps does not end
      with white space. */
  lemma {:induction false} TrimEndFacts(s: string)
    ensures TrimEnd(s) == s[..|TrimEnd(s)|]
    ensures forall k :: |TrimEnd(s)| <= k < |s| ==> IsWhiteSpace(s[k])
    ensures |TrimEnd(s)| > 0 ==> !IsWhiteSpace(TrimEnd(s)[|TrimEnd(s)| - 1])
  {
    if |s| > 0 && IsWhiteSpace(s[|s| - 1]) {
      TrimEndFacts(s[..|s| - 1]);
      forall k | |TrimEnd(s)| <= k < |s| - 1 ensures IsWhiteSpace(s[k]) {
        assert s[k] == s[..|s| - 1][k];
      }
    }
  }

  /** `trim` cuts a slice out of `s`, with only white space around it and no
      white space at its ends. */
  lemma TrimIsSlice(s: string)
    ensures var i := |s| - |TrimStart(s)|; var j := i + |Trim(s)|;
      j <= |s| && Trim(s) == s[i..j]
      && (forall k :: 0 <= k < i ==> IsWhiteSpace(s[k]))
      && (forall k :: j <= k < |s| ==> IsWhiteSpace(s[k]))
    ensures |Trim(s)| > 0 ==> !IsWhiteSpace(Trim(s)[0]) && !IsWhiteSpace(Trim(s)[|Trim(s)| - 1])
  {
    TrimStartFacts(s);
    TrimEndFacts(TrimStart(s));
    TrimSlice(s);
    TrimTrailing(s);
    var t := TrimStart(s);
    if |Trim(s)| > 0 {
      assert Trim(s)[0] == t[0];
    }
  }

  lemma TrimSlice(s: string)
    ensures var i := |s| - |TrimStart(s)|; i + |Trim(s)| <= |s| && Trim(s) == s[i..i + |Trim(s)|]
  {
    var t := TrimStart(s);
    var i := |s| - |t|;
    var r := TrimEnd(t);
    TrimStartFacts(s);
    TrimEndFacts(t);
    assert t == s[i..];
    assert r == t[..|r|];
  }

  lemma TrimTrailing(s: string)
    ensures forall k :: |s| - |TrimStart(s)| + |Trim(s)| <= k < |s| ==> IsWhiteSpace(s[k])
  {
    var t := TrimStart(s);
    var i := |s| - |t|;
    TrimStartFacts(s);
    TrimEndFacts(t);
    forall k | i + |Trim(s)| <= k < |s| ensures IsWhiteSpace(s[k]) {
      assert s[k] == t[k - i];
    }
  }

  /** A blank line, in the sense of `line.trim()` being falsy, is one made of
      white space only. */
  lemma TrimEmptyIff(s: string)
    ensures Trim(s) == "" <==> forall k :: 0 <= k < |s| ==> IsWhiteSpace(s[k])
  {
    var t := TrimStart(s);
    TrimStartFacts(s);
    TrimEndFacts(t);
    if t != "" {
      assert !IsWhiteSpace(s[|s| - |t|]);
      assert TrimEnd(t) != "";
    }
  }

  // ------------------------------------------------------------ lower case

  /** The lower-case mapping of one character as far as it can produce an ASCII
      character: A-Z, the KELVIN SIGN (which lower-cases to `k`) and the
      capital I with dot above (which lower-cases to `i` and a combining dot);
      every other character is kept, since its lower-case form is not ASCII. */
  function LowerChar(c: char): (r: string)
    ensures |r| >= 1
  {
    if 'A' <= c <= 'Z' then [(c as int + 32) as char]
    else if c == '\U{212A}' then "k"
    else if c == '\U{0130}' then "i\U{0307}"
    else [c]
  }

  /** The characters `LowerChar` changes. */
  predicate ChangesCase(c: char) {
    'A' <= c <= 'Z' || c == '\U{212A}' || c == '\U{0130}'
  }

  /** `s.toLowerCase()`, character by character. */
  function ToLower(s: string): (r: string)
    ensures |r| >= |s|
  {
    if s == [] then [] else LowerChar(s[0]) + ToLower(s[1..])
  }

  lemma {:induction false} ToLowerConcat(a: string, b: string)
    ensures ToLower(a + b) == ToLower(a) + ToLower(b)
    decreases |a|
  {
    if a != [] {
      assert (a + b)[1..] == a[1..] + b;
      ToLowerConcat(a[1..], b);
    } else {
      assert a + b == b;
    }
  }

  /** Text without upper-case letters is its own lower-case form. */
  lemma {:induction false} ToLowerFixed(s: string)
    requires forall k :: 0 <= k < |s| ==> !ChangesCase(s[k])
    ensures ToLower(s) == s
  {
    if s != [] {
      ToLowerFixed(s[1..]);
    }
  }

  /** A character that no character of `s` lowers to is not in `s.toLowerCase()`. */
  lemma {:induction false} ToLowerAvoids(s: string, c: char)
    requires forall k :: 0 <= k < |s| ==> c !in LowerChar(s[k])
    ensures c !in ToLower(s)
    decreases |s|
  {
    if s != [] {
      ToLowerAvoids(s[1..], c);
    }
  }

  /** Lower-casing text whose only upper-case character is the ASCII letter `c`. */
  lemma ToLowerOneCapital(a: string, c: char, b: string)
    requires forall k :: 0 <= k < |a| ==> !ChangesCase(a[k])
    requires forall k :: 0 <= k < |b| ==> !ChangesCase(b[k])
    requires 'A' <= c <= 'Z'
    ensures ToLower(a + [c] + b) == a + [(c as int + 32) as char] + b
  {
    var lc := (c as int + 32) as char;
    assert ToLower([c]) == [lc] by {
      assert [c][1..] == [];
      assert ToLower([c]) == LowerChar(c) + ToLower([]);
    }
    ToLowerFixed(a);
    ToLowerFixed(b);
    ToLowerConcat(a, [c]);
    ToLowerConcat(a + [c], b);
  }

  /** Lower-casing twice changes nothing more. */
  lemma {:induction false} ToLowerIdempotent(s: string)
    ensures ToLower(ToLower(s)) == ToLower(s)
    decreases |s|
  {
    if s != [] {
      var c := LowerChar(s[0]);
      ToLowerIdempotent(s[1..]);
      ToLowerConcat(c, ToLower(s[1..]));
      if |c| == 1 {
        assert c[1..] == [];
        assert ToLower(c) == LowerChar(c[0]);
      } else {
        assert c == "i\U{0307}";
        assert ToLower(c) == LowerChar('i') + ToLower("\U{0307}");
      }
    }
  }

  /** `s` does not hold the character `c`. */
  predicate FreeOf(s: string, c: char) {
    forall k :: 0 <= k < |s| ==> s[k] != c
  }

  lemma FreeOfIff(s: string, c: char)
    ensures FreeOf(s, c) <==> c !in s
  {
    if c in s {
      var k :| 0 <= k < |s| && s[k] == c;
    }
  }

  lemma FreeOfConcat(a: string, b: string, c: char)
    requires FreeOf(a, c) && FreeOf(b, c)
    ensures FreeOf(a + b, c)
  {
    forall k | 0 <= k < |a + b| ensures (a + b)[k] != c {
      if k >= |a| {
        assert (a + b)[k] == b[k - |a|];
      }
    }
  }

  lemma FreeOfConcat3(a: string, b: string, c: string, x: char)
    requires FreeOf(a, x) && FreeOf(b, x) && FreeOf(c, x)
    ensures FreeOf(a + b + c, x)
  {
    FreeOfConcat(a, b, x);
    FreeOfConcat(a + b, c, x);
  }

  // -------------------------------------------------------------- numbers

  predicate IsDigit(c: char) {
    '0' <= c <= '9'
  }

  function DigitChar(n: nat): (c: char)
    requires n < 10
    ensures IsDigit(c)
  {
    (48 + n) as char
  }

  /** `String(n)` for a non-negative integer: its shortest decimal numeral. */
  function NatToString(n: nat): (r: string)
    ensures |r| >= 1
    ensures forall k :: 0 <= k < |r| ==> IsDigit(r[k])
    ensures |r| > 1 ==> r[0] != '0'
  {
    if n < 10 then [DigitChar(n)] else NatToString(n / 10) + [DigitChar(n % 10)]
  }

  /** `String(i)` / `${i}` for an integer. */
  function IntToString(i: int): (r: string)
    ensures |r| >= 1
  {
    if i < 0 then "-" + NatToString(-i) else NatToString(i)
  }

  function DigitValue(c: char): nat
    requires IsDigit(c)
  {
    c as int - 48
  }

  /** The value of a string of decimal digits. */
  function DigitsValue(s: string): nat
    requires forall k :: 0 <= k < |s| ==> IsDigit(s[k])
  {
    if s == [] then 0 else 10 * DigitsValue(s[..|s| - 1]) + DigitValue(s[|s| - 1])
  }

  lemma {:induction false} NatToStringValue(n: nat)
    ensures DigitsValue(NatToString(n)) == n
  {
    if n >= 10 {
      var s := NatToString(n);
      assert s[..|s| - 1] == NatToString(n / 10);
      NatToStringValue(n / 10);
    }
  }

  lemma NatToStringInjective(m: nat, n: nat)
    ensures NatToString(m) == NatToString(n) ==> m == n
  {
    NatToStringValue(m);
    NatToStringValue(n);
  }

  /** `s.padStart(width, "0")`. */
  function PadZeros(s: string, width: nat): (r: string)
    ensures |r| == if |s| < width then width else |s|
    ensures r[|r| - |s|..] == s
    ensures forall k :: 0 <= k < |r| - |s| ==> r[k] == '0'
  {
    if |s| < width then seq(width - |s|, _ => '0') + s else s
  }

  /** Leading zeros do not change the value of a numeral. */
  lemma {:induction false} DigitsValueLeadingZeros(z: nat, s: string)
    requires forall k :: 0 <= k < |s| ==> IsDigit(s[k])
    ensures var t := seq(z, _ => '0') + s;
      (forall k :: 0 <= k < |t| ==> IsDigit(t[k])) && DigitsValue(t) == DigitsValue(s)
    decreases |s|
  {
    var t := seq(z, _ => '0') + s;
    if s == [] {
      assert t == seq(z, _ => '0');
      ZerosValue(z);
    } else {
      var s' := s[..|s| - 1];
      assert t[..|t| - 1] == seq(z, _ => '0') + s';
      DigitsValueLeadingZeros(z, s');
    }
  }

  lemma {:induction false} ZerosValue(z: nat)
    ensures DigitsValue(seq(z, _ => '0')) == 0
  {
    if z > 0 {
      assert seq(z, _ => '0')[..z - 1] == seq(z - 1, _ => '0');
      ZerosValue(z - 1);
    }
  }

  /** A zero-padded numeral of `n` is made of digits and reads as `n`. */
  lemma PaddedValue(n: nat, width: nat)
    ensures var r := PadZeros(NatToString(n), width);
      (forall k :: 0 <= k < |r| ==> IsDigit(r[k])) && DigitsValue(r) == n
  {
    var s := NatToString(n);
    NatToStringValue(n);
    if |s| < width {
      DigitsValueLeadingZeros(width - |s|, s);
    }
  }

  /** ... and it is exactly `width` digits long when `n` has at most `width` digits. */
  lemma PaddedNumeral(n: nat, width: nat)
    requires 1 <= width <= 4
    requires n < if width == 1 then 10 else if width == 2 then 100 else if width == 3 then 1000 else 10000
    ensures var r := PadZeros(NatToString(n), width);
      |r| == width && (forall k :: 0 <= k < |r| ==> IsDigit(r[k])) && DigitsValue(r) == n
  {
    NumeralFits(n, width);
    PaddedValue(n, width);
  }

  lemma NumeralFits(n: nat, width: nat)
    requires 1 <= width <= 4
    requires n < if width == 1 then 10 else if width == 2 then 100 else if width == 3 then 1000 else 10000
    ensures |PadZeros(NatToString(n), width)| == width
  {
    NatToStringLength(n);
    if width == 1 {
      assert |NatToString(n)| <= 1;
    } else if width == 2 {
      assert |NatToString(n)| <= 2;
    } else if width == 3 {
      assert |NatToString(n)| <= 3;
    } else {
      assert |NatToString(n)| <= 4;
    }
  }

  lemma NatToStringLength(n: nat)
    ensures n < 10 ==> |NatToString(n)| == 1
    ensures n < 100 ==> |NatToString(n)| <= 2
    ensures n < 1000 ==> |NatToString(n)| <= 3
    ensures n < 10000 ==> |NatToString(n)| <= 4
  {
    if n >= 10 { NatToStringLength(n / 10); }
  }
}
