/** The Python `str` and `bytes` operations the program relies on, over `seq<char>`:
    `startswith`, `endswith`, `in`, `lower`, `strip`, `lstrip`, `rfind`, `split`,
    `join`, `replace(pat, "")`, `str(int)`, `int(str)` and `bytes.hex()`. */
module Pystr {
  import opened Wrappers

  type byte = x: int | 0 <= x < 256

  predicate StartsWith(s: string, prefix: string) {
    |prefix| <= |s| && s[..|prefix|] == prefix
  }

  predicate EndsWith(s: string, suffix: string) {
    |suffix| <= |s| && s[|s| - |suffix|..] == suffix
  }

  /** `pat` occurs in `s` starting at index `i`. */
  predicate OccursAt(s: string, pat: string, i: nat) {
    i + |pat| <= |s| && s[i..i + |pat|] == pat
  }

  /** `pat in s`, scanning `s` from the left. */
  function Contains(s: string, pat: string): bool
    decreases |s|
  {
    StartsWith(s, pat) || (s != [] && Contains(s[1..], pat))
  }

  lemma {:induction false} ContainsIff(s: string, pat: string)
    ensures Contains(s, pat) <==> exists i: nat :: OccursAt(s, pat, i)
    decreases |s|
  {
    if StartsWith(s, pat) {
      assert OccursAt(s, pat, 0);
    } else if s != [] {
      ContainsIff(s[1..], pat);
      if Contains(s[1..], pat) {
        var i: nat :| OccursAt(s[1..], pat, i);
        OccursShift(s, pat, i);
      } else {
        forall i: nat | i > 0 && OccursAt(s, pat, i) ensures false {
          OccursShift(s, pat, i - 1);
        }
      }
    }
  }

  /** An occurrence in the tail is an occurrence one place later in `s`. */
  lemma OccursShift(s: string, pat: string, i: nat)
    requires s != []
    ensures OccursAt(s[1..], pat, i) <==> OccursAt(s, pat, i + 1)
  {
    if i + 1 + |pat| <= |s| {
      assert s[1..][i..i + |pat|] == s[i + 1..i + 1 + |pat|];
    }
  }

  // ---------------------------------------------------------------- lower()

  /** ASCII case mapping of `str.lower()`. */
  function LowerChar(c: char): char {
    if 'A' <= c <= 'Z' then (c as int + 32) as char else c
  }

  function Lower(s: string): (r: string)
    ensures |r| == |s| && forall i :: 0 <= i < |s| ==> r[i] == LowerChar(s[i])
  {
    seq(|s|, i requires 0 <= i < |s| => LowerChar(s[i]))
  }

  lemma LowerAppend(a: string, b: string)
    ensures Lower(a + b) == Lower(a) + Lower(b)
  {
  }

  /** A suffix without `c` ends `a + [c] + b` exactly when it ends `b`. */
  lemma EndsWithAfter(a: string, c: char, b: string, suffix: string)
    requires c !in suffix
    ensures EndsWith(a + [c] + b, suffix) <==> EndsWith(b, suffix)
  {
    var s := a + [c] + b;
    if |suffix| <= |b| {
      assert s[|s| - |suffix|..] == b[|b| - |suffix|..];
    } else {
      assert s[|a|] == c;
      assert |suffix| > |s| - |a| - 1;
    }
  }

  // ------------------------------------------------------ strip(), lstrip(c)

  /** `str.isspace()` of a single character. */
  predicate IsSpace(c: char) {
    var n := c as int;
    (9 <= n <= 13) || (28 <= n <= 32) || n == 0x85 || n == 0xA0 || n == 0x1680 ||
    (0x2000 <= n <= 0x200A) || n == 0x2028 || n == 0x2029 || n == 0x202F || n == 0x205F || n == 0x3000
  }

  predicate AllSpace(s: string) {
    forall k :: 0 <= k < |s| ==> IsSpace(s[k])
  }

  /** `s.lstrip()`: the suffix of `s` left after dropping its leading whitespace. */
  function LStrip(s: string): (r: string)
    ensures |r| <= |s| && r == s[|s| - |r|..]
    ensures forall k :: 0 <= k < |s| - |r| ==> IsSpace(s[k])
    ensures r != [] ==> !IsSpace(r[0])
    decreases |s|
  {
    if s != [] && IsSpace(s[0]) then LStrip(s[1..]) else s
  }

  /** `s.rstrip()`: the prefix of `s` left after dropping its trailing whitespace. */
  function RStrip(s: string): (r: string)
    ensures |r| <= |s| && r == s[..|r|]
    ensures forall k :: |r| <= k < |s| ==> IsSpace(s[k])
    ensures r != [] ==> !IsSpace(r[|r| - 1])
    decreases |s|
  {
    if s != [] && IsSpace(s[|s| - 1]) then RStrip(s[..|s| - 1]) else s
  }

  /** `s.strip()` */
  function Strip(s: string): string {
    RStrip(LStrip(s))
  }

  /** `strip()` keeps exactly the slice between the leading and the trailing
      whitespace: what it drops is whitespace, and what it keeps neither starts
      nor ends with whitespace. */
  lemma StripShape(s: string)
    ensures exists i, j :: 0 <= i <= j <= |s| && Strip(s) == s[i..j] && AllSpace(s[..i]) && AllSpace(s[j..])
    ensures Strip(s) != [] ==> !IsSpace(Strip(s)[0]) && !IsSpace(Strip(s)[|Strip(s)| - 1])
  {
    var l := LStrip(s);
    var r := RStrip(l);
    var i := |s| - |l|;
    var j := i + |r|;
    LStripDropsSpace(s);
    RStripDropsSpace(l);
    SliceOfSuffix(s, i, |r|);
    assert Strip(s) == s[i..j];
    assert AllSpace(s[j..]);
    if r != [] {
      assert r[0] == l[0];
    }
  }

  lemma LStripDropsSpace(s: string)
    ensures AllSpace(s[..|s| - |LStrip(s)|])
  {
    var i := |s| - |LStrip(s)|;
    forall k | 0 <= k < i ensures IsSpace(s[..i][k]) {
      assert s[..i][k] == s[k];
    }
  }

  lemma RStripDropsSpace(t: string)
    ensures AllSpace(t[|RStrip(t)|..])
  {
    var n := |RStrip(t)|;
    forall k | 0 <= k < |t| - n ensures IsSpace(t[n..][k]) {
      assert t[n..][k] == t[n + k];
    }
  }

  lemma SliceOfSuffix(s: string, i: nat, n: nat)
    requires i + n <= |s|
    ensures s[i..][..n] == s[i..i + n] && s[i..][n..] == s[i + n..]
  {
  }

  /** Stripping twice is stripping once. */
  lemma StripIdempotent(s: string)
    ensures Strip(Strip(s)) == Strip(s)
  {
    StripShape(s);
    StripOfTrimmed(Strip(s));
  }

  /** A string that neither starts nor ends with whitespace is its own strip. */
  lemma StripOfTrimmed(t: string)
    requires t != [] ==> !IsSpace(t[0]) && !IsSpace(t[|t| - 1])
    ensures Strip(t) == t
  {
    assert LStrip(t) == t;
  }

  /** `s.lstrip(c)` for a single character `c`. */
  function LStripChar(s: string, c: char): (r: string)
    ensures |r| <= |s| && r == s[|s| - |r|..]
    decreases |s|
  {
    if s != [] && s[0] == c then LStripChar(s[1..], c) else s
  }

  /** What `LStripChar` removes is a run of `c`, and what is left does not
      start with `c`. */
  lemma {:induction false} LStripCharSpec(s: string, c: char)
    ensures var r := LStripChar(s, c);
      (forall k :: 0 <= k < |s| - |r| ==> s[k] == c) && (r != [] ==> r[0] != c)
    decreases |s|
  {
    if s != [] && s[0] == c {
      var t := s[1..];
      LStripCharSpec(t, c);
      var r := LStripChar(t, c);
      assert LStripChar(s, c) == r;
      forall k | 0 <= k < |s| - |r| ensures s[k] == c {
        if k > 0 {
          assert k - 1 < |t| - |r|;
          assert s[k] == t[k - 1];
        }
      }
    }
  }

  // ------------------------------------------------- rfind(), split(), join()

  /** `s.rfind(c)`: the last index holding `c`, or -1. */
  function LastIndexOf(s: string, c: char): (r: int)
    ensures -1 <= r < |s|
    ensures r >= 0 ==> s[r] == c
    ensures forall k :: r < k < |s| ==> s[k] != c
    decreases |s|
  {
    if s == [] then -1
    else if s[|s| - 1] == c then |s| - 1
    else LastIndexOf(s[..|s| - 1], c)
  }

  lemma LastIndexOfAppend(a: string, c: char, b: string)
    requires c !in b
    ensures LastIndexOf(a + [c] + b, c) == |a|
  {
    var s := a + [c] + b;
    var r := LastIndexOf(s, c);
    assert s[|a|] == c;
  }

  /** `s.split(sep)`: the pieces between the occurrences of `sep`. */
  function Split(s: string, sep: char): (r: seq<string>)
    ensures |r| >= 1
    decreases |s|
  {
    var i := LastIndexOf(s, sep);
    if i < 0 then [s] else Split(s[..i], sep) + [s[i + 1..]]
  }

  lemma SplitAppend(a: string, sep: char, b: string)
    requires sep !in b
    ensures Split(a + [sep] + b, sep) == Split(a, sep) + [b]
  {
    var s := a + [sep] + b;
    LastIndexOfAppend(a, sep, b);
    assert s[..|a|] == a && s[|a| + 1..] == b;
  }

  /** `sep.join(xs)` */
  function JoinWith(xs: seq<string>, sep: char): string {
    if |xs| == 0 then ""
    else if |xs| == 1 then xs[0]
    else JoinWith(xs[..|xs| - 1], sep) + [sep] + xs[|xs| - 1]
  }

  /** Splitting a joined list on the separator gives the list back, provided no
      piece holds the separator. */
  lemma {:induction false} SplitJoin(xs: seq<string>, sep: char)
    requires |xs| >= 1
    requires forall k :: 0 <= k < |xs| ==> sep !in xs[k]
    ensures Split(JoinWith(xs, sep), sep) == xs
  {
    if |xs| == 1 {
      assert JoinWith(xs, sep) == xs[0];
      assert LastIndexOf(xs[0], sep) < 0;
      assert [xs[0]] == xs;
    } else {
      var init := xs[..|xs| - 1];
      var last := xs[|xs| - 1];
      forall k | 0 <= k < |init| ensures sep !in init[k] {
        assert init[k] == xs[k];
      }
      SplitJoin(init, sep);
      assert JoinWith(xs, sep) == JoinWith(init, sep) + [sep] + last;
      SplitAppend(JoinWith(init, sep), sep, last);
      assert init + [last] == xs;
    }
  }

  /** Joining the pieces of a split with the separator gives the string back. */
  lemma {:induction false} JoinSplit(s: string, sep: char)
    ensures JoinWith(Split(s, sep), sep) == s
    decreases |s|
  {
    var i := LastIndexOf(s, sep);
    if i >= 0 {
      var init := Split(s[..i], sep);
      JoinSplit(s[..i], sep);
      var xs := init + [s[i + 1..]];
      assert xs[..|xs| - 1] == init;
      assert s == s[..i] + [sep] + s[i + 1..];
    }
  }

  // ------------------------------------------------------- replace(pat, "")

  /** `s.replace(pat, "")`: removes the non-overlapping occurrences of `pat`,
      found from the left. */
  function RemoveAll(s: string, pat: string): string
    requires pat != []
    decreases |s|
  {
    if |s| < |pat| then s
    else if s[..|pat|] == pat then RemoveAll(s[|pat|..], pat)
    else [s[0]] + RemoveAll(s[1..], pat)
  }

  /** A pattern none of whose later characters equals its first one cannot
      overlap itself. */
  predicate FirstCharUnique(pat: string) {
    pat != [] && forall k :: 0 < k < |pat| ==> pat[k] != pat[0]
  }

  /** For such a pattern, removing it from `stem + pat` where `stem` does not
      contain it leaves exactly `stem`. */
  lemma {:induction false} RemoveAllTrailing(stem: string, pat: string)
    requires FirstCharUnique(pat)
    requires !Contains(stem, pat)
    ensures RemoveAll(stem + pat, pat) == stem
    decreases |stem|
  {
    var s := stem + pat;
    if stem == [] {
      assert s == pat;
      assert RemoveAll(s[|pat|..], pat) == [];
    } else {
      assert !StartsWith(stem, pat) && !Contains(stem[1..], pat);
      RemoveAllTrailingStep(stem, pat);
      RemoveAllTrailing(stem[1..], pat);
      assert [stem[0]] + stem[1..] == stem;
    }
  }

  /** The first step of `RemoveAllTrailing`: `stem + pat` does not start with
      `pat`, so its first character is kept. */
  lemma RemoveAllTrailingStep(stem: string, pat: string)
    requires FirstCharUnique(pat) && stem != [] && !StartsWith(stem, pat)
    ensures RemoveAll(stem + pat, pat) == [stem[0]] + RemoveAll(stem[1..] + pat, pat)
  {
    var s := stem + pat;
    PatNotAtFront(stem, pat);
    RemoveAllKeeps(s, pat);
    assert s[0] == stem[0];
    assert s[1..] == stem[1..] + pat;
  }

  /** A non-empty `stem` that does not start with `pat`, followed by `pat`,
      does not start with `pat` either: the pattern cannot overlap itself. */
  lemma PatNotAtFront(stem: string, pat: string)
    requires FirstCharUnique(pat) && stem != [] && !StartsWith(stem, pat)
    ensures (stem + pat)[..|pat|] != pat
  {
    var s := stem + pat;
    if |stem| >= |pat| {
      assert s[..|pat|] == stem[..|pat|];
    } else {
      assert s[|stem|] == pat[0];
      assert pat[|stem|] != pat[0];
    }
  }

  /** Where `pat` does not start the string, `replace` keeps its first
      character. */
  lemma RemoveAllKeeps(s: string, pat: string)
    requires pat != [] && |s| >= |pat| && s[..|pat|] != pat
    ensures RemoveAll(s, pat) == [s[0]] + RemoveAll(s[1..], pat)
  {
  }

  // -------------------------------------------------- str(int) and int(str)

  predicate IsDigit(c: char) {
    '0' <= c <= '9'
  }

  predicate AllDigits(s: string) {
    forall k :: 0 <= k < |s| ==> IsDigit(s[k])
  }

  function DigitChar(d: nat): char
    requires d < 10
  {
    (d + '0' as int) as char
  }

  /** `str(n)` for `n >= 0` */
  function NatToString(n: nat): (r: string)
    ensures r != [] && AllDigits(r)
    decreases n
  {
    if n < 10 then [DigitChar(n)] else NatToString(n / 10) + [DigitChar(n % 10)]
  }

  /** `str(n)`: decimal digits, with a leading '-' when negative. */
  function IntToString(n: int): string {
    if n < 0 then "-" + NatToString(-n) else NatToString(n)
  }

  /** The value of a run of decimal digits. */
  function DigitsValue(ds: string): nat
    requires AllDigits(ds)
  {
    if ds == [] then 0
    else 10 * DigitsValue(ds[..|ds| - 1]) + (ds[|ds| - 1] as int - '0' as int)
  }

  /** `int(s)` on a string: surrounding whitespace is ignored, one optional sign,
      then at least one decimal digit; anything else raises ValueError (None). */
  function ParseInt(s: string): Option<int> {
    var t := Strip(s);
    if t == [] then None
    else
      var neg := t[0] == '-';
      var ds := if t[0] == '-' || t[0] == '+' then t[1..] else t;
      if ds != [] && AllDigits(ds) then
        var v: int := DigitsValue(ds);
        Some(if neg then -v else v)
      else None
  }

  lemma {:induction false} DigitsValueOfNat(n: nat)
    ensures DigitsValue(NatToString(n)) == n
    decreases n
  {
    if n >= 10 {
      DigitsValueOfNat(n / 10);
      var s := NatToString(n);
      assert s[..|s| - 1] == NatToString(n / 10);
    }
  }

  /** `int(str(n)) == n` */
  lemma ParseIntToString(n: int)
    ensures ParseInt(IntToString(n)) == Some(n)
  {
    var s := IntToString(n);
    var m: nat := if n < 0 then -n else n;
    var digits := NatToString(m);
    DigitsValueOfNat(m);
    DigitNotSpace(digits[|digits| - 1]);
    if n < 0 {
      assert s == "-" + digits;
      assert s[1..] == digits;
    } else {
      DigitNotSpace(digits[0]);
      assert s == digits;
    }
    assert s[|s| - 1] == digits[|digits| - 1];
    StripOfTrimmed(s);
  }

  lemma DigitNotSpace(c: char)
    requires IsDigit(c)
    ensures !IsSpace(c) && c != '-' && c != '+'
  {
  }

  /** The decimal rendering of an integer holds no separator character. */
  lemma IntToStringNoComma(n: int)
    ensures ',' !in IntToString(n)
  {
    var s := IntToString(n);
    if n < 0 {
      assert s[1..] == NatToString(-n);
      assert forall k :: 1 <= k < |s| ==> IsDigit(s[k]);
    }
  }

  // ------------------------------------------------------------ bytes.hex()

  function HexDigit(v: nat): char
    requires v < 16
  {
    "0123456789abcdef"[v]
  }

  predicate IsLowerHex(c: char) {
    ('0' <= c <= '9') || ('a' <= c <= 'f')
  }

  /** The value of a lower-case hexadecimal digit. */
  function HexValue(c: char): nat
    requires IsLowerHex(c)
  {
    if '0' <= c <= '9' then c as int - '0' as int else c as int - 'a' as int + 10
  }

  /** `bytes.hex()`: two lower-case hexadecimal digits per byte, high nibble first. */
  function Hex(bs: seq<byte>): (r: string)
    ensures |r| == 2 * |bs|
    ensures forall k :: 0 <= k < |r| ==> IsLowerHex(r[k])
  {
    if bs == [] then ""
    else [HexDigit(bs[0] / 16), HexDigit(bs[0] % 16)] + Hex(bs[1..])
  }

  /** The inverse of `Hex` on strings of even length made of lower-case hex digits. */
  function UnHex(s: string): (r: seq<byte>)
    requires |s| % 2 == 0
    requires forall k :: 0 <= k < |s| ==> IsLowerHex(s[k])
  {
    if s == [] then []
    else [16 * HexValue(s[0]) + HexValue(s[1])] + UnHex(s[2..])
  }

  lemma {:induction false} UnHexHex(bs: seq<byte>)
    ensures UnHex(Hex(bs)) == bs
  {
    if bs != [] {
      var hi, lo := bs[0] / 16, bs[0] % 16;
      var t := Hex(bs[1..]);
      assert Hex(bs) == [HexDigit(hi), HexDigit(lo)] + t;
      UnHexCons(hi, lo, t);
      UnHexHex(bs[1..]);
      assert bs == [bs[0]] + bs[1..];
    }
  }

  /** Two digits in front read back as one more byte in front. */
  lemma UnHexCons(hi: nat, lo: nat, t: string)
    requires hi < 16 && lo < 16
    requires |t| % 2 == 0 && forall k :: 0 <= k < |t| ==> IsLowerHex(t[k])
    ensures var h := [HexDigit(hi), HexDigit(lo)] + t;
      |h| % 2 == 0 && (forall k :: 0 <= k < |h| ==> IsLowerHex(h[k])) &&
      UnHex(h) == [16 * hi + lo] + UnHex(t)
  {
    HexDigitValue(hi);
    HexDigitValue(lo);
    var h := [HexDigit(hi), HexDigit(lo)] + t;
    assert h[2..] == t;
  }

  lemma HexDigitValue(v: nat)
    requires v < 16
    ensures IsLowerHex(HexDigit(v)) && HexValue(HexDigit(v)) == v
  {
  }

  // ------------------------------------------------- [x for x in xs if keep(x)]

  /** The elements of `xs` that satisfy `keep`, in their order. */
  function Filter<T>(xs: seq<T>, keep: T -> bool): seq<T> {
    if xs == [] then []
    else
      var kept := Filter(xs[..|xs| - 1], keep);
      if keep(xs[|xs| - 1]) then kept + [xs[|xs| - 1]] else kept
  }

  lemma FilterSnoc<T>(xs: seq<T>, keep: T -> bool, i: nat)
    requires i < |xs|
    ensures Filter(xs[..i + 1], keep) == Filter(xs[..i], keep) + (if keep(xs[i]) then [xs[i]] else [])
  {
    assert xs[..i + 1][..i] == xs[..i];
  }

  /** An element is kept exactly when it is in the list and satisfies `keep`. */
  lemma {:induction false} FilterMemberIff<T>(xs: seq<T>, keep: T -> bool, x: T)
    ensures x in Filter(xs, keep) <==> x in xs && keep(x)
  {
    if xs != [] {
      var init := xs[..|xs| - 1];
      FilterMemberIff(init, keep, x);
      assert xs == init + [xs[|xs| - 1]];
    }
  }

  /** Nothing is kept when no element satisfies `keep`. */
  lemma {:induction false} FilterNone<T>(xs: seq<T>, keep: T -> bool)
    requires forall k :: 0 <= k < |xs| ==> !keep(xs[k])
    ensures Filter(xs, keep) == []
  {
    if xs != [] {
      FilterNone(xs[..|xs| - 1], keep);
    }
  }

  /** The positions of the elements `keep` holds of, in order. */
  function FilterIndices<T>(xs: seq<T>, keep: T -> bool): seq<nat> {
    if xs == [] then []
    else
      var n := |xs| - 1;
      FilterIndices(xs[..n], keep) + (if keep(xs[n]) then [n] else [])
  }

  /** The positions are increasing, each holds the element kept in its place,
      and they are exactly the positions whose element satisfies `keep`. */
  lemma {:induction false} FilterIndicesSpec<T>(xs: seq<T>, keep: T -> bool)
    ensures var idx := FilterIndices(xs, keep);
      |idx| == |Filter(xs, keep)| &&
      (forall k :: 0 <= k < |idx| ==> idx[k] < |xs| && xs[idx[k]] == Filter(xs, keep)[k]) &&
      (forall k, l :: 0 <= k < l < |idx| ==> idx[k] < idx[l]) &&
      (forall j :: 0 <= j < |xs| ==> (keep(xs[j]) <==> j in idx))
  {
    if xs != [] {
      var n := |xs| - 1;
      var init := xs[..n];
      var kept := FilterIndices(init, keep);
      var front := Filter(init, keep);
      FilterIndicesSpec(init, keep);
      FilterSnoc(xs, keep, n);
      assert xs[..n + 1] == xs;
      var idx := FilterIndices(xs, keep);
      var all := Filter(xs, keep);
      forall k | 0 <= k < |kept| ensures idx[k] == kept[k] && all[k] == front[k] && kept[k] < n {
        assert init[kept[k]] == xs[kept[k]];
      }
      forall j | 0 <= j < n ensures (j in idx <==> j in kept) && xs[j] == init[j] {
      }
    }
  }
}
