/** Digit generation: `__ultoa` and `__ujtoa` of debug/vfprintf.c, which write a number
    backwards into the end of a fixed buffer. */
module PrintfDigits {

  /** The size of the buffer. */
  const BUF: nat := 100
  /** In grouping rules, "no more grouping". */
  const CHAR_MAX: nat := 127
  /** Unsigned values are below this. */
  const LIMIT: nat := 0x1_0000_0000_0000_0000

  const LOWER := "0123456789abcdef"
  const UPPER := "0123456789ABCDEF"

  // ----- numerals -----

  /** The numeral of `v`, most significant digit first. */
  function Digits(v: nat, base: nat, digits: string): (r: string)
    requires 2 <= base <= |digits|
    ensures |r| > 0
    decreases v
  {
    if v < base then [digits[v]]
    else
      QuotientSmaller(v, base);
      Digits(v / base, base, digits) + [digits[v % base]]
  }

  lemma QuotientSmaller(v: nat, base: nat)
    requires v >= base >= 2
    ensures 0 < v / base < v && 0 <= v % base < base
    ensures v == v / base * base + v % base
  {
    var q := v / base;
    assert v == base * q + v % base;
    if q <= 0 { MulMonotone(base, q, 0); }
    MulMonotone(q, 2, base);
  }

  lemma MulMonotone(a: int, b: int, c: int)
    requires a >= 0 && b <= c
    ensures a * b <= a * c
  {
  }

  /** Whether grouping puts a separator in front of the last `k` digits: `k` is one of the
      cumulative group sizes, the last size repeating. */
  predicate Boundary(grp: seq<nat>, k: nat)
    decreases k
  {
    && grp != [] && 0 < grp[0] != CHAR_MAX && grp[0] <= k
    && (k == grp[0] || Boundary(NextGroup(grp), k - grp[0]))
  }

  function NextGroup(grp: seq<nat>): seq<nat>
    requires grp != []
  {
    if |grp| > 1 then grp[1..] else grp
  }

  /** The decimal numeral of `v` with separators, in front of `k` more digits. */
  function Grouped(v: nat, k: nat, grp: seq<nat>, sep: char): (r: string)
    ensures |r| > 0
    decreases v
  {
    if v < 10 then [LOWER[v]]
    else Grouped(v / 10, k + 1, grp, sep) + Sep(grp, k + 1, sep) + [LOWER[v % 10]]
  }

  function Sep(grp: seq<nat>, k: nat, sep: char): string {
    if Boundary(grp, k) then [sep] else ""
  }

  // ----- how long numerals are -----

  function Pow(b: nat, e: nat): nat {
    if e == 0 then 1 else b * Pow(b, e - 1)
  }

  lemma {:induction false} DigitsFit(v: nat, base: nat, digits: string, n: nat)
    requires 2 <= base <= |digits| && n > 0 && v < Pow(base, n)
    ensures |Digits(v, base, digits)| <= n
    decreases v
  {
    hide Digits, Pow;
    DigitsLength(v, base, digits);
    PowStep(base, n);
    if v >= base && n > 1 {
      QuotientBelow(v, base, Pow(base, n - 1));
      DigitsFit(v / base, base, digits, n - 1);
    }
  }

  lemma DigitsLength(v: nat, base: nat, digits: string)
    requires 2 <= base <= |digits|
    ensures v >= base ==> 0 < v / base < v && |Digits(v, base, digits)| == |Digits(v / base, base, digits)| + 1
    ensures v < base ==> |Digits(v, base, digits)| == 1
  {
    if v >= base {
      QuotientSmaller(v, base);
      assert Digits(v, base, digits) == Digits(v / base, base, digits) + [digits[v % base]];
    }
  }

  lemma PowStep(base: nat, n: nat)
    requires n > 0
    ensures Pow(base, n) == base * Pow(base, n - 1)
    ensures n == 1 ==> Pow(base, n) == base
  {
  }

  lemma QuotientBelow(v: nat, b: nat, p: nat)
    requires b > 0 && v < b * p
    ensures v / b < p
  {
    assert v == b * (v / b) + v % b;
    if v / b >= p {
      MulMonotone(b, p, v / b);
    }
  }

  lemma {:induction false} GroupedFits(v: nat, k: nat, grp: seq<nat>, sep: char)
    ensures |Grouped(v, k, grp, sep)| <= 2 * |Digits(v, 10, LOWER)|
    decreases v
  {
    if v >= 10 {
      GroupedFits(v / 10, k + 1, grp, sep);
    }
  }

  lemma Fits(v: nat)
    requires v < LIMIT
    ensures |Digits(v, 10, LOWER)| <= 20
    ensures |Digits(v, 8, LOWER)| <= 22
    ensures forall digits: string | |digits| == 16 :: |Digits(v, 16, digits)| <= 16
  {
    assert Pow(10, 20) == 100000000000000000000 by {
      assert Pow(10, 5) == 100000;
      assert Pow(10, 10) == 10000000000;
      assert Pow(10, 15) == 1000000000000000;
    }
    assert Pow(8, 22) == 0x4_0000_0000_0000_0000 by {
      assert Pow(8, 4) == 0x1000;
      assert Pow(8, 8) == 0x100_0000;
      assert Pow(8, 12) == 0x10_0000_0000;
      assert Pow(8, 16) == 0x1_0000_0000_0000;
      assert Pow(8, 20) == 0x1000_0000_0000_0000;
    }
    assert Pow(16, 16) == LIMIT by {
      assert Pow(16, 4) == 0x1_0000;
      assert Pow(16, 8) == 0x1_0000_0000;
      assert Pow(16, 12) == 0x1_0000_0000_0000;
    }
    DigitsFit(v, 10, LOWER, 20);
    DigitsFit(v, 8, LOWER, 22);
    forall digits: string | |digits| == 16 ensures |Digits(v, 16, digits)| <= 16 {
      DigitsFit(v, 16, digits, 16);
    }
  }

  // ----- what grouping means -----

  /** Reading the separators' places off a digit string from the left. */
  function GroupText(d: string, k: nat, grp: seq<nat>, sep: char): string {
    if d == "" then ""
    else [d[0]] + (if |d| > 1 then Sep(grp, |d| - 1 + k, sep) else "") + GroupText(d[1..], k, grp, sep)
  }

  lemma {:induction false} GroupTextSnoc(d: string, c: char, k: nat, grp: seq<nat>, sep: char)
    requires d != ""
    ensures GroupText(d + [c], k, grp, sep) == GroupText(d, k + 1, grp, sep) + Sep(grp, k + 1, sep) + [c]
    decreases |d|
  {
    hide Boundary, Sep;
    var e := d + [c];
    assert e[1..] == d[1..] + [c];
    if |d| == 1 {
      assert e[1..] == [c] && [c][1..] == "" && d[1..] == "";
      assert GroupText([c], k, grp, sep) == [c];
      assert GroupText(d, k + 1, grp, sep) == d;
    } else {
      GroupTextSnoc(d[1..], c, k, grp, sep);
      var s := Sep(grp, |d| + k, sep);
      Regroup([d[0]], s, GroupText(d[1..], k + 1, grp, sep), Sep(grp, k + 1, sep), [c]);
    }
  }

  lemma Regroup(a: string, b: string, c: string, d: string, e: string)
    ensures a + b + (c + d + e) == (a + b + c) + d + e
  {
  }

  /** A separator stands in front of the last `j` digits exactly if `j` is a cumulative
      group size, and there is none in front of all digits. */
  lemma {:induction false} GroupedMeaning(v: nat, k: nat, grp: seq<nat>, sep: char)
    ensures Grouped(v, k, grp, sep) == GroupText(Digits(v, 10, LOWER), k, grp, sep)
    decreases v
  {
    if v < 10 {
      assert [LOWER[v]][1..] == "";
    } else {
      hide Boundary, Sep;
      GroupedMeaning(v / 10, k + 1, grp, sep);
      GroupTextSnoc(Digits(v / 10, 10, LOWER), LOWER[v % 10], k, grp, sep);
    }
  }

  function Strip(s: string, sep: char): string {
    if s == "" then "" else (if s[0] == sep then "" else [s[0]]) + Strip(s[1..], sep)
  }

  lemma {:induction false} StripConcat(s: string, t: string, sep: char)
    ensures Strip(s + t, sep) == Strip(s, sep) + Strip(t, sep)
  {
    if s == "" {
      assert s + t == t;
    } else {
      assert (s + t)[1..] == s[1..] + t;
      StripConcat(s[1..], t, sep);
    }
  }

  /** Removing the separators gives back the plain numeral. */
  lemma {:induction false} StripGrouped(v: nat, k: nat, grp: seq<nat>, sep: char)
    requires sep !in LOWER[..10]
    ensures Strip(Grouped(v, k, grp, sep), sep) == Digits(v, 10, LOWER)
    decreases v
  {
    assert LOWER[..10][v % 10] == LOWER[v % 10];
    assert Strip([LOWER[v % 10]], sep) == [LOWER[v % 10]] by {
      assert [LOWER[v % 10]][1..] == "";
    }
    if v >= 10 {
      var head, mid := Grouped(v / 10, k + 1, grp, sep), Sep(grp, k + 1, sep);
      StripGrouped(v / 10, k + 1, grp, sep);
      assert Strip(mid, sep) == "" by {
        assert [sep][1..] == "";
      }
      StripConcat(head + mid, [LOWER[v % 10]], sep);
      StripConcat(head, mid, sep);
    }
  }

  // ----- the value of a numeral -----

  function ValueOf(s: string, base: nat, digits: string): nat {
    if s == "" then 0
    else ValueOf(s[..|s| - 1], base, digits) * base + DigitValue(s[|s| - 1], digits)
  }

  function DigitValue(c: char, digits: string): nat {
    if digits == "" then 0 else if digits[0] == c then 0 else 1 + DigitValue(c, digits[1..])
  }

  ghost predicate Distinct(digits: string) {
    forall j, k :: 0 <= j < k < |digits| ==> digits[j] != digits[k]
  }

  lemma {:induction false} DigitValueOf(digits: string, i: nat)
    requires i < |digits| && Distinct(digits)
    ensures DigitValue(digits[i], digits) == i
    decreases i
  {
    if i > 0 {
      DigitValueOf(digits[1..], i - 1);
    }
  }

  lemma ValueSnoc(s: string, c: char, base: nat, digits: string)
    ensures ValueOf(s + [c], base, digits) == ValueOf(s, base, digits) * base + DigitValue(c, digits)
  {
    assert (s + [c])[..|s|] == s;
  }

  /** A numeral denotes its number, and has no needless leading zero. */
  lemma {:induction false} DigitsValue(v: nat, base: nat, digits: string)
    requires 2 <= base <= |digits| && Distinct(digits)
    ensures ValueOf(Digits(v, base, digits), base, digits) == v
    ensures v > 0 ==> Digits(v, base, digits)[0] != digits[0]
    decreases v
  {
    hide ValueOf, DigitValue, Distinct;
    if v < base {
      DigitValueOf(digits, v);
      ValueSnoc("", digits[v], base, digits);
      ValueOfNothing(base, digits);
      assert "" + [digits[v]] == [digits[v]];
      FirstDiffers(digits, v);
    } else {
      QuotientSmaller(v, base);
      var s := Digits(v / base, base, digits);
      DigitsValue(v / base, base, digits);
      DigitValueOf(digits, v % base);
      ValueSnoc(s, digits[v % base], base, digits);
    }
  }

  lemma ValueOfNothing(base: nat, digits: string)
    ensures ValueOf("", base, digits) == 0
  {
  }

  lemma FirstDiffers(digits: string, v: nat)
    requires v < |digits| && Distinct(digits)
    ensures v > 0 ==> digits[v] != digits[0]
  {
  }

  // ----- the conversions -----

  /** The C library's grouping rules as the code reads them: `*grp`, 0 at the end. */
  function First(grp: seq<nat>): nat { if grp == [] then 0 else grp[0] }

  /** What `__ultoa` prints in base 10.  Above the signed maximum, the first digit is taken
      off before grouping starts to count, so a first group of one digit is missed and no
      group is ever completed. */
  function Decimal(val: nat, signedMax: nat, needgrp: bool, grp: seq<nat>, sep: char): string {
    if !needgrp || (val > signedMax && First(grp) == 1) then Digits(val, 10, LOWER)
    else Grouped(val, 0, grp, sep)
  }

  lemma {:induction false} NoGroups(v: nat, k: nat, sep: char)
    ensures Grouped(v, k, [], sep) == Digits(v, 10, LOWER)
    decreases v
  {
    if v >= 10 {
      NoGroups(v / 10, k + 1, sep);
      assert Digits(v / 10, 10, LOWER) + "" == Digits(v / 10, 10, LOWER);
    }
  }

  /** Grouping is right exactly outside that case. */
  lemma DecimalIsGrouped(val: nat, signedMax: nat, grp: seq<nat>, sep: char)
    requires signedMax >= 9 && sep !in LOWER[..10]
    ensures Decimal(val, signedMax, true, grp, sep) == Grouped(val, 0, grp, sep)
            <==> !(val > signedMax && First(grp) == 1)
  {
    if val > signedMax && First(grp) == 1 {
      assert Boundary(grp, 1);
      var s := Grouped(val, 0, grp, sep);
      assert s[|s| - 2] == sep;
      DigitsAreDigits(val);
    }
  }

  lemma {:induction false} DigitsAreDigits(v: nat)
    ensures forall i :: 0 <= i < |Digits(v, 10, LOWER)| ==> Digits(v, 10, LOWER)[i] in LOWER[..10]
    decreases v
  {
    assert LOWER[..10][v % 10] == LOWER[v % 10];
    if v >= 10 {
      DigitsAreDigits(v / 10);
    }
  }

  /** Grouping rules are a C string: its characters are not NUL. */
  ghost predicate Rules(grp: seq<nat>) {
    forall i :: 0 <= i < |grp| ==> 0 < grp[i] <= CHAR_MAX
  }

  ghost predicate Agree(grp: seq<nat>, k: nat, rules: seq<nat>, ndig: nat, j: nat) {
    Boundary(grp, k + j) <==> Boundary(rules, ndig + j)
  }

  /** The counting of the loop: `ndig` digits since the last separator, `k` in all. */
  ghost predicate Counting(grp: seq<nat>, k: nat, rules: seq<nat>, ndig: nat) {
    && Rules(rules)
    && (forall j: nat :: j >= 1 ==> Agree(grp, k, rules, ndig, j))
    && (rules != [] ==> ndig < rules[0])
  }

  lemma CountOne(grp: seq<nat>, k: nat, rules: seq<nat>, ndig: nat)
    requires Counting(grp, k, rules, ndig) && ndig < CHAR_MAX - 1
    ensures var hit := ndig + 1 == First(rules) && First(rules) != CHAR_MAX;
      && (Boundary(grp, k + 1) <==> hit)
      && Counting(grp, k + 1, if hit then NextGroup(rules) else rules, if hit then 0 else ndig + 1)
  {
    var hit := ndig + 1 == First(rules) && First(rules) != CHAR_MAX;
    var rules' := if hit then NextGroup(rules) else rules;
    var ndig' := if hit then 0 else ndig + 1;
    var k' := k + 1;
    assert Agree(grp, k, rules, ndig, 1);
    forall j: nat | j >= 1 ensures Agree(grp, k', rules', ndig', j) {
      assert Agree(grp, k, rules, ndig, j + 1);
      assert k + (j + 1) == k + 1 + j && ndig + (j + 1) == ndig + 1 + j;
    }
  }

  /** The rules that the loop ends up following. */
  function Effective(val: nat, signedMax: nat, needgrp: bool, grp: seq<nat>): seq<nat> {
    if !needgrp || (val > signedMax && First(grp) == 1) then [] else grp
  }

  lemma DecimalEffective(val: nat, signedMax: nat, needgrp: bool, grp: seq<nat>, sep: char)
    ensures Decimal(val, signedMax, needgrp, grp, sep) == Grouped(val, 0, Effective(val, signedMax, needgrp, grp), sep)
  {
    NoGroups(val, 0, sep);
  }

  /** What the loop knows about its counting: it follows the effective rules. */
  ghost predicate Following(eff: seq<nat>, k: nat, needgrp: bool, rules: seq<nat>, ndig: nat) {
    if needgrp && eff != [] then Counting(eff, k, rules, ndig)
    else eff == [] && (!needgrp || rules == [] || (rules[0] == 1 && ndig >= 1))
  }

  lemma FollowOne(eff: seq<nat>, k: nat, needgrp: bool, rules: seq<nat>, ndig: nat)
    requires Following(eff, k, needgrp, rules, ndig) && ndig < CHAR_MAX - 1
    ensures var hit := needgrp && ndig + 1 == First(rules) && First(rules) != CHAR_MAX;
      && (Boundary(eff, k + 1) <==> hit)
      && Following(eff, k + 1, needgrp, if hit then NextGroup(rules) else rules, if hit then 0 else ndig + 1)
  {
    if needgrp && eff != [] {
      CountOne(eff, k, rules, ndig);
    }
  }

  lemma FollowStart(val: nat, signedMax: nat, needgrp: bool, grp: seq<nat>)
    requires Rules(grp)
    ensures var eff := Effective(val, signedMax, needgrp, grp);
      && (val <= signedMax ==> Following(eff, 0, needgrp, grp, 0))
      && (val > signedMax ==> Following(eff, 1, needgrp, grp, 1) && !Boundary(eff, 1))
  {
    var eff := Effective(val, signedMax, needgrp, grp);
    if needgrp && eff != [] {
      forall j: nat | j >= 1 ensures Agree(eff, 0, grp, 0, j) {
      }
      assert Counting(eff, 0, grp, 0);
      CountOne(eff, 0, grp, 0);
    }
  }

  /** The base 10 case of `__ultoa` and `__ujtoa`, for more than one digit: `signedMax` is
      LONG_MAX or INTMAX_MAX.  Only the first division is unsigned. */
  method ConvertDecimal(val: nat, buf: array<char>, signedMax: nat, needgrp: bool, sep: char, grp: seq<nat>)
    returns (cp: nat)
    requires buf.Length == BUF && 10 <= val < LIMIT && val <= 2 * signedMax + 1 && Rules(grp)
    modifies buf
    ensures cp <= BUF && buf[cp..] == Decimal(val, signedMax, needgrp, grp, sep)
  {
    hide Boundary, Following, Effective, Grouped, Digits, Sep, Decimal;
    ghost var eff := Effective(val, signedMax, needgrp, grp);
    ghost var k := 0;
    DecimalEffective(val, signedMax, needgrp, grp, sep);
    FollowStart(val, signedMax, needgrp, grp);
    Fits(val);
    GroupedFits(val, 0, eff, sep);
    assert buf[BUF..] == "";
    cp := BUF;
    var rules := grp;
    var ndig := 0;
    var sval: nat;
    if val > signedMax {
      cp := Prepend(buf, cp, LOWER[val % 10]);
      ndig := ndig + 1;
      sval := val / 10;
      k := 1;
      StartHigh(val, eff, sep);
    } else {
      sval := val;
    }
    assert sval <= signedMax;
    while true
      invariant 0 <= cp <= BUF && sval <= signedMax
      invariant Following(eff, k, needgrp, rules, ndig) && ndig <= k && k + |Digits(sval, 10, LOWER)| <= 20
      invariant |Grouped(sval, k, eff, sep)| <= cp
      invariant Grouped(val, 0, eff, sep) == Grouped(sval, k, eff, sep) + buf[cp..]
      decreases sval
    {
      ghost var before := buf[cp..];
      FollowOne(eff, k, needgrp, rules, ndig);
      GroupedStep(sval, k, eff, sep, before);
      cp := Prepend(buf, cp, LOWER[sval % 10]);
      ndig := ndig + 1;
      if needgrp && ndig == First(rules) && First(rules) != CHAR_MAX {
        if sval > 9 {
          cp := Prepend(buf, cp, sep);
          ndig := 0;
          rules := NextGroup(rules);
        }
      }
      k := k + 1;
      sval := sval / 10;
      if sval == 0 {
        break;
      }
    }
  }

  lemma StartHigh(val: nat, eff: seq<nat>, sep: char)
    requires val >= 10 && !Boundary(eff, 1)
    ensures Grouped(val, 0, eff, sep) == Grouped(val / 10, 1, eff, sep) + [LOWER[val % 10]]
    ensures |Digits(val, 10, LOWER)| == |Digits(val / 10, 10, LOWER)| + 1
  {
    hide Boundary;
    assert Grouped(val / 10, 1, eff, sep) + "" == Grouped(val / 10, 1, eff, sep);
  }

  /** `*--cp = c` */
  method Prepend(buf: array<char>, cp: nat, c: char) returns (cp': nat)
    requires 0 < cp <= buf.Length
    modifies buf
    ensures cp' == cp - 1 && buf[cp'..] == [c] + old(buf[cp..])
  {
    cp' := cp - 1;
    buf[cp'] := c;
  }

  lemma GroupedStep(v: nat, k: nat, eff: seq<nat>, sep: char, tail: string)
    ensures v < 10 ==> Grouped(v, k, eff, sep) + tail == [LOWER[v % 10]] + tail
    ensures v >= 10 ==>
      var out := [LOWER[v % 10]] + tail;
      && Grouped(v, k, eff, sep) + tail
         == Grouped(v / 10, k + 1, eff, sep) + (if Boundary(eff, k + 1) then [sep] + out else out)
      && |Grouped(v, k, eff, sep)| == |Grouped(v / 10, k + 1, eff, sep)| + (if Boundary(eff, k + 1) then 2 else 1)
      && |Digits(v, 10, LOWER)| == |Digits(v / 10, 10, LOWER)| + 1
  {
    hide Boundary;
  }

  datatype Base = Ten | Eight | Sixteen

  /** The text that either conversion produces. */
  function Converted(val: nat, base: Base, octzero: bool, xdigs: string, signedMax: nat,
                     needgrp: bool, sep: char, grp: seq<nat>): string
    requires |xdigs| == 16
  {
    match base
    case Ten => Decimal(val, signedMax, needgrp, grp, sep)
    case Eight => (if octzero && val != 0 then "0" else "") + Digits(val, 8, LOWER)
    case Sixteen => Digits(val, 16, xdigs)
  }

  /** Shifting out digits of a base that is a power of two. */
  method ConvertBinary(val: nat, buf: array<char>, base: nat, digits: string) returns (cp: nat)
    requires buf.Length == BUF && 2 <= base <= |digits| && |Digits(val, base, digits)| < BUF
    modifies buf
    ensures 0 < cp <= BUF && buf[cp..] == Digits(val, base, digits)
  {
    hide Digits;
    cp := BUF;
    var v: nat := val;
    assert buf[BUF..] == "" && Digits(val, base, digits) + "" == Digits(val, base, digits);
    while true
      invariant 0 < cp <= BUF && |Digits(v, base, digits)| < cp
      invariant Digits(val, base, digits) == Digits(v, base, digits) + buf[cp..]
      decreases v
    {
      DigitsStep(v, base, digits, buf[cp..]);
      cp := Prepend(buf, cp, digits[v % base]);
      v := v / base;
      if v == 0 {
        break;
      }
    }
  }

  lemma DigitsStep(v: nat, base: nat, digits: string, tail: string)
    requires 2 <= base <= |digits|
    ensures 0 <= v % base < base
    ensures if v / base == 0 then
        Digits(v, base, digits) + tail == [digits[v % base]] + tail && |Digits(v, base, digits)| == 1
      else
        && 0 < v / base < v && |Digits(v, base, digits)| == |Digits(v / base, base, digits)| + 1
        && Digits(v, base, digits) + tail == Digits(v / base, base, digits) + ([digits[v % base]] + tail)
  {
    if v < base {
      SmallQuotient(v, base);
    } else {
      QuotientSmaller(v, base);
      var d, c := Digits(v / base, base, digits), digits[v % base];
      assert d + [c] + tail == d + ([c] + tail);
    }
  }

  lemma SmallQuotient(v: nat, base: nat)
    requires v < base
    ensures v / base == 0 && v % base == v
  {
  }

  /** `__ultoa` for values up to twice `signedMax` (LONG_MAX) plus one.  No value needs more
      than the buffer. */
  method Ultoa(val: nat, buf: array<char>, base: Base, octzero: bool, xdigs: string, signedMax: nat,
               needgrp: bool, sep: char, grp: seq<nat>) returns (cp: nat)
    requires buf.Length == BUF && val < LIMIT && 9 <= signedMax && val <= 2 * signedMax + 1
    requires |xdigs| == 16 && Rules(grp)
    modifies buf
    ensures cp <= BUF && buf[cp..] == Converted(val, base, octzero, xdigs, signedMax, needgrp, sep, grp)
  {
    hide Digits, Grouped, Boundary;
    Fits(val);
    match base {
      case Ten =>
        if val < 10 {
          assert buf[BUF..] == "";
          cp := Prepend(buf, BUF, LOWER[val]);
          OneDigit(val, signedMax, needgrp, grp, sep);
          return;
        }
        cp := ConvertDecimal(val, buf, signedMax, needgrp, sep, grp);
      case Eight =>
        cp := ConvertBinary(val, buf, 8, LOWER);
        OctalZero(val, buf[cp..]);
        if octzero && buf[cp] != '0' {
          cp := Prepend(buf, cp, '0');
        }
      case Sixteen =>
        cp := ConvertBinary(val, buf, 16, xdigs);
    }
  }

  lemma OneDigit(val: nat, signedMax: nat, needgrp: bool, grp: seq<nat>, sep: char)
    requires val < 10
    ensures Decimal(val, signedMax, needgrp, grp, sep) == [LOWER[val]]
  {
  }

  lemma OctalZero(val: nat, s: string)
    requires s == Digits(val, 8, LOWER)
    ensures s != "" && (s[0] != '0' <==> val != 0) && "" + s == s && "0" + s == ['0'] + s
  {
    if val != 0 {
      LowerDistinct();
      DigitsValue(val, 8, LOWER);
    }
  }

  lemma LowerDistinct()
    ensures Distinct(LOWER)
  {
  }

  /** `__ujtoa`: hands values that fit to `__ultoa`, and does the same to the others.  On a
      machine with 64-bit longs it always hands them on. */
  method Ujtoa(val: nat, buf: array<char>, base: Base, octzero: bool, xdigs: string, longMax: nat, intmaxMax: nat,
               needgrp: bool, sep: char, grp: seq<nat>) returns (cp: nat)
    requires buf.Length == BUF && val < LIMIT && 9 <= longMax <= intmaxMax && val <= 2 * intmaxMax + 1
    requires |xdigs| == 16 && Rules(grp)
    modifies buf
    ensures cp <= BUF
    ensures buf[cp..] == Converted(val, base, octzero, xdigs, if val <= 2 * longMax + 1 then longMax else intmaxMax,
                                   needgrp, sep, grp)
  {
    if val <= 2 * longMax + 1 {
      cp := Ultoa(val, buf, base, octzero, xdigs, longMax, needgrp, sep, grp);
    } else {
      cp := Ultoa(val, buf, base, octzero, xdigs, intmaxMax, needgrp, sep, grp);
    }
  }
}
