/**
 * The handful of Python string operations the record cleaner relies on,
 * restricted to ASCII: `str.strip()`, `str.lower()`, deletion of the
 * characters of `string.punctuation`, `str.split(" ")` (with `" ".join` as
 * its partner) and the decimal rendering `str(n)` used by `str.format`.
 */
module Text {

  // ---------------------------------------------------------------------
  // Character classes

  /** `str.isspace()` on ASCII: space, tab, LF, VT, FF, CR and the four separators 0x1C-0x1F. */
  predicate IsSpace(c: char) {
    c == ' ' || 9 <= c as int <= 13 || 28 <= c as int <= 31
  }

  predicate IsUpper(c: char) {
    'A' <= c <= 'Z'
  }

  /** The 32 characters of Python's `string.punctuation`, in its own order. */
  const Punctuation: string := "!\"#$%&'()*+,-./:;<=>?@[\\]^_`{|}~"

  /** Membership in `string.punctuation`, decided by ASCII code ranges. */
  predicate IsPunctuation(c: char) {
    33 <= c as int <= 47 || 58 <= c as int <= 64 || 91 <= c as int <= 96 || 123 <= c as int <= 126
  }

  /** The range test agrees with the 32-character literal. */
  lemma PunctuationRanges(c: char)
    ensures |Punctuation| == 32
    ensures IsPunctuation(c) <==> c in Punctuation
  {
  }

  // ---------------------------------------------------------------------
  // str.strip()

  /** True when the characters of `s` at positions `lo` up to `hi` are all whitespace. */
  predicate SpaceBetween(s: string, lo: int, hi: int) {
    forall i :: lo <= i < hi && 0 <= i < |s| ==> IsSpace(s[i])
  }

  /** `r` is the part of `s` from `lo` on, with only whitespace around it, and neither starts nor ends with whitespace. */
  ghost predicate StrippedAt(r: string, s: string, lo: int) {
    && 0 <= lo && lo + |r| <= |s|
    && (forall i :: 0 <= i < |r| ==> r[i] == s[lo + i])
    && SpaceBetween(s, 0, lo) && SpaceBetween(s, lo + |r|, |s|)
    && (r != [] ==> !IsSpace(r[0]) && !IsSpace(r[|r| - 1]))
  }

  /** `r` is `s` with a maximal run of whitespace removed from each end. */
  ghost predicate IsStripOf(r: string, s: string) {
    exists lo :: StrippedAt(r, s, lo)
  }

  /** The first position from `i` on that does not hold whitespace (`|s|` when there is none). */
  function FirstNonSpace(s: string, i: nat): (k: nat)
    requires i <= |s|
    ensures i <= k <= |s|
    ensures SpaceBetween(s, i, k)
    ensures k < |s| ==> !IsSpace(s[k])
    decreases |s| - i
  {
    if i < |s| && IsSpace(s[i]) then FirstNonSpace(s, i + 1) else i
  }

  /** Moving down from `j` but not below `lo`, the end of the last character that is not whitespace. */
  function LastNonSpace(s: string, lo: nat, j: nat): (k: nat)
    requires lo <= j <= |s|
    ensures lo <= k <= j
    ensures SpaceBetween(s, k, j)
    ensures k > lo ==> !IsSpace(s[k - 1])
    decreases j
  {
    if j > lo && IsSpace(s[j - 1]) then LastNonSpace(s, lo, j - 1) else j
  }

  /**
   * Python's `str.strip()` with no argument, over ASCII whitespace: skip
   * whitespace from the left, then from the right, and keep what lies between.
   */
  function Strip(s: string): (r: string)
    ensures IsStripOf(r, s)
  {
    var lo := FirstNonSpace(s, 0);
    var hi := LastNonSpace(s, lo, |s|);
    assert StrippedAt(s[lo..hi], s, lo);
    s[lo..hi]
  }

  /** Stripping is determined by what it promises: nothing but `Strip(s)` strips `s`. */
  lemma StripUnique(r: string, s: string)
    requires IsStripOf(r, s)
    ensures r == Strip(s)
  {
  }

  /** Stripping twice is stripping once. */
  lemma StripIdempotent(s: string)
    ensures Strip(Strip(s)) == Strip(s)
  {
  }

  // ---------------------------------------------------------------------
  // str.lower()

  function LowerChar(c: char): char {
    if IsUpper(c) then (c as int + 32) as char else c
  }

  /** Python's `str.lower()` over ASCII: every A-Z becomes its a-z counterpart, nothing else changes. */
  function Lower(s: string): (r: string)
    ensures |r| == |s|
    ensures forall i :: 0 <= i < |r| ==> !IsUpper(r[i])
    ensures forall i :: 0 <= i < |s| && !IsUpper(s[i]) ==> r[i] == s[i]
    ensures forall i :: 0 <= i < |s| && IsUpper(s[i]) ==> r[i] as int == s[i] as int + 32
    decreases |s|
  {
    if s == [] then [] else [LowerChar(s[0])] + Lower(s[1..])
  }

  /** Lower-casing leaves a string without upper-case letters alone, so a second pass changes nothing. */
  lemma LowerIdempotent(s: string)
    ensures (forall i :: 0 <= i < |s| ==> !IsUpper(s[i])) ==> Lower(s) == s
    ensures Lower(Lower(s)) == Lower(s)
  {
  }

  // ---------------------------------------------------------------------
  // deletion of string.punctuation

  /**
   * `''.join(c for c in s if c not in punctuation)`. data.py:164 names
   * `puncutation_set` without its `Process.` prefix; this is the set it means.
   */
  function RemovePunctuation(s: string): (r: string)
    ensures |r| <= |s|
    ensures forall i :: 0 <= i < |r| ==> !IsPunctuation(r[i])
    decreases |s|
  {
    if s == [] then []
    else
      (if IsPunctuation(s[0]) then [] else [s[0]]) + RemovePunctuation(s[1..])
  }

  /** Only punctuation is deleted: every other character occurs as often as before. */
  lemma {:induction false} RemovePunctuationCounts(s: string, c: char)
    requires !IsPunctuation(c)
    ensures multiset(RemovePunctuation(s))[c] == multiset(s)[c]
    decreases |s|
  {
    if s != [] {
      assert s == [s[0]] + s[1..];
      RemovePunctuationCounts(s[1..], c);
    }
  }

  /** `r` is `t` with some characters deleted and the others kept in their order. */
  ghost predicate Subsequence(r: string, t: string)
    decreases |t|
  {
    r == [] || (t != [] && ((r[0] == t[0] && Subsequence(r[1..], t[1..])) || Subsequence(r, t[1..])))
  }

  /** The deletion keeps the remaining characters in their original order. */
  lemma {:induction false} RemovePunctuationSubsequence(t: string)
    ensures Subsequence(RemovePunctuation(t), t)
    decreases |t|
  {
    if t != [] {
      RemovePunctuationSubsequence(t[1..]);
      var rest := RemovePunctuation(t[1..]);
      if IsPunctuation(t[0]) {
        assert RemovePunctuation(t) == rest;
      } else {
        assert RemovePunctuation(t) == [t[0]] + rest;
        assert ([t[0]] + rest)[1..] == rest;
      }
    }
  }

  /** Nothing is added: the result's characters are drawn from the input's. */
  lemma {:induction false} RemovePunctuationWithin(s: string)
    ensures multiset(RemovePunctuation(s)) <= multiset(s)
    decreases |s|
  {
    if s != [] {
      assert s == [s[0]] + s[1..];
      RemovePunctuationWithin(s[1..]);
    }
  }

  /** Deleting characters cannot introduce an upper-case letter. */
  lemma {:induction false} RemovePunctuationNoUpper(s: string)
    requires forall i :: 0 <= i < |s| ==> !IsUpper(s[i])
    ensures forall i :: 0 <= i < |RemovePunctuation(s)| ==> !IsUpper(RemovePunctuation(s)[i])
    decreases |s|
  {
    if s != [] {
      RemovePunctuationNoUpper(s[1..]);
    }
  }

  /** The deletion works character by character: it distributes over concatenation, so order is kept. */
  lemma {:induction false} RemovePunctuationAppend(a: string, b: string)
    ensures RemovePunctuation(a + b) == RemovePunctuation(a) + RemovePunctuation(b)
    decreases |a|
  {
    if a != [] {
      var ab := a + b;
      assert ab[0] == a[0] && ab[1..] == a[1..] + b;
      RemovePunctuationAppend(a[1..], b);
      var h := if IsPunctuation(a[0]) then [] else [a[0]];
      var x, y := RemovePunctuation(a[1..]), RemovePunctuation(b);
      assert RemovePunctuation(ab) == h + (x + y);
      assert RemovePunctuation(a) == h + x;
      assert h + (x + y) == (h + x) + y;
    } else {
      assert a + b == b;
    }
  }

  /** A string without punctuation is left as it is. */
  lemma {:induction false} RemovePunctuationKeeps(s: string)
    requires forall i :: 0 <= i < |s| ==> !IsPunctuation(s[i])
    ensures RemovePunctuation(s) == s
    decreases |s|
  {
    if s != [] {
      RemovePunctuationKeeps(s[1..]);
    }
  }

  // ---------------------------------------------------------------------
  // str.split(sep) and sep.join(...)

  /**
   * Python's `s.split(sep)` with an explicit one-character separator:
   * consecutive separators give empty fields and the empty string gives [""].
   */
  function Split(s: string, sep: char): (r: seq<string>)
    ensures |r| == multiset(s)[sep] + 1
    ensures forall i :: 0 <= i < |r| ==> sep !in r[i]
    decreases |s|
  {
    if s == [] then [""]
    else
      assert s == [s[0]] + s[1..];
      var rest := Split(s[1..], sep);
      if s[0] == sep then [""] + rest
      else [[s[0]] + rest[0]] + rest[1..]
  }

  /** Every field is made of characters of the split string. */
  lemma {:induction false} SplitFieldWithin(s: string, sep: char, i: nat)
    requires i < |Split(s, sep)|
    ensures multiset(Split(s, sep)[i]) <= multiset(s)
    decreases |s|
  {
    if s != [] {
      var rest := Split(s[1..], sep);
      assert s == [s[0]] + s[1..];
      if s[0] == sep {
        if i > 0 {
          SplitFieldWithin(s[1..], sep, i - 1);
        }
      } else if i == 0 {
        SplitFieldWithin(s[1..], sep, 0);
      } else {
        SplitFieldWithin(s[1..], sep, i);
      }
    }
  }

  /** `sep.join(ts)`. */
  function Join(ts: seq<string>, sep: char): string
    decreases |ts|
  {
    if |ts| == 0 then ""
    else if |ts| == 1 then ts[0]
    else ts[0] + [sep] + Join(ts[1..], sep)
  }

  /** Prefixing a character to the first field prefixes it to the joined string. */
  lemma JoinConsChar(c: char, ts: seq<string>, sep: char)
    requires |ts| >= 1
    ensures Join([[c] + ts[0]] + ts[1..], sep) == [c] + Join(ts, sep)
  {
  }

  /** An empty first field contributes only its separator. */
  lemma JoinConsEmpty(ts: seq<string>, sep: char)
    requires |ts| >= 1
    ensures Join([""] + ts, sep) == [sep] + Join(ts, sep)
  {
  }

  /** Joining the fields of a split with the same separator gives back the original string. */
  lemma {:induction false} JoinSplit(s: string, sep: char)
    ensures Join(Split(s, sep), sep) == s
    decreases |s|
  {
    if s != [] {
      var rest := Split(s[1..], sep);
      JoinSplit(s[1..], sep);
      assert s == [s[0]] + s[1..];
      if s[0] == sep {
        JoinConsEmpty(rest, sep);
      } else {
        JoinConsChar(s[0], rest, sep);
      }
    }
  }

  lemma {:induction false} SplitNoSeparator(a: string, sep: char)
    requires sep !in a
    ensures Split(a, sep) == [a]
    decreases |a|
  {
    if a != [] {
      SplitNoSeparator(a[1..], sep);
      assert [a[0]] + a[1..] == a;
    }
  }

  lemma {:induction false} SplitAtFirstSeparator(a: string, b: string, sep: char)
    requires sep !in a
    ensures Split(a + [sep] + b, sep) == [a] + Split(b, sep)
    decreases |a|
  {
    var s := a + [sep] + b;
    if a == [] {
      assert s[1..] == b;
    } else {
      assert s[1..] == a[1..] + [sep] + b;
      SplitAtFirstSeparator(a[1..], b, sep);
      assert [s[0]] + a[1..] == a;
    }
  }

  /** Splitting a join of separator-free fields gives back the fields. */
  lemma {:induction false} SplitJoin(ts: seq<string>, sep: char)
    requires |ts| >= 1
    requires forall i :: 0 <= i < |ts| ==> sep !in ts[i]
    ensures Split(Join(ts, sep), sep) == ts
    decreases |ts|
  {
    if |ts| == 1 {
      SplitNoSeparator(ts[0], sep);
    } else {
      SplitJoin(ts[1..], sep);
      SplitAtFirstSeparator(ts[0], Join(ts[1..], sep), sep);
      assert [ts[0]] + ts[1..] == ts;
    }
  }

  // ---------------------------------------------------------------------
  // str(n) for a natural number

  predicate IsDigit(c: char) {
    '0' <= c <= '9'
  }

  predicate AllDigits(s: string) {
    forall i :: 0 <= i < |s| ==> IsDigit(s[i])
  }

  function DigitChar(d: nat): (c: char)
    requires d < 10
  {
    ('0' as int + d) as char
  }

  function DigitValue(c: char): nat
    requires IsDigit(c)
  {
    c as int - '0' as int
  }

  /** The canonical decimal rendering of `n`, as `'{}'.format(n)` writes it: no sign, no leading zero. */
  function Decimal(n: nat): (r: string)
    ensures |r| >= 1 && AllDigits(r)
    ensures r[0] == '0' ==> n == 0
    decreases n
  {
    if n < 10 then [DigitChar(n)] else Decimal(n / 10) + [DigitChar(n % 10)]
  }

  /** Reads a string of decimal digits back into the number it denotes. */
  function ParseDecimal(s: string): (n: nat)
    requires AllDigits(s)
    ensures |s| >= 1 ==> n >= DigitValue(s[0])
    decreases |s|
  {
    if s == [] then 0 else 10 * ParseDecimal(s[..|s| - 1]) + DigitValue(s[|s| - 1])
  }

  /** Reading a rendered number gives back the number. */
  lemma {:induction false} ParseDecimalOfDecimal(n: nat)
    ensures ParseDecimal(Decimal(n)) == n
    decreases n
  {
    if n >= 10 {
      var s := Decimal(n);
      assert s[..|s| - 1] == Decimal(n / 10);
      ParseDecimalOfDecimal(n / 10);
    }
  }

  /** Rendering the value of a canonical digit string gives back the string. */
  lemma {:induction false} DecimalOfParseDecimal(s: string)
    requires |s| >= 1 && AllDigits(s)
    requires s[0] == '0' ==> |s| == 1
    ensures Decimal(ParseDecimal(s)) == s
    decreases |s|
  {
    if |s| > 1 {
      var p := s[..|s| - 1];
      DecimalOfParseDecimal(p);
      assert p[0] == s[0];
      var n := ParseDecimal(s);
      assert ParseDecimal(p) >= 1;
      assert n / 10 == ParseDecimal(p) && n % 10 == DigitValue(s[|s| - 1]);
      assert s == p + [s[|s| - 1]];
    }
  }

  /** Distinct numbers have distinct renderings. */
  lemma DecimalInjective(m: nat, n: nat)
    requires m != n
    ensures Decimal(m) != Decimal(n)
  {
    ParseDecimalOfDecimal(m);
    ParseDecimalOfDecimal(n);
  }
}
