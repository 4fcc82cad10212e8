/**
  The JavaScript string and array built-ins the monitor relies on, with their
  JavaScript semantics: `String.prototype.split` on a one-character separator,
  `Array.prototype.join`, the default `Array.prototype.sort`, `String.prototype.trim`
  and the conversion `'' + n` of an integer to its decimal text.
 */
module JsText {

  /** The characters matched by the regular-expression class `\s` and removed by `trim`
      (a chosen subset of the Unicode white-space and line-terminator set). */
  predicate IsSpace(c: char) {
    c == ' ' || c == '\t' || c == '\n' || c == '\r' || c == '\U{B}' || c == '\U{C}'
    || c == '\U{A0}' || c == '\U{2028}' || c == '\U{2029}' || c == '\U{FEFF}'
  }

  predicate NoSpace(s: string) {
    forall i :: 0 <= i < |s| ==> !IsSpace(s[i])
  }

  // ---------------------------------------------------------------- split / join

  /** `s.split(sep)`: the maximal separator-free pieces of `s`, in order; the empty
      string splits into one empty piece. */
  function Split(s: string, sep: char): (parts: seq<string>)
    ensures |parts| >= 1
  {
    if |s| == 0 then [""]
    else
      var rest := Split(s[1..], sep);
      if s[0] == sep then [""] + rest
      else [[s[0]] + rest[0]] + rest[1..]
  }

  /** No piece of a split contains the separator. */
  lemma {:induction false} SplitSepFree(s: string, sep: char)
    ensures forall i :: 0 <= i < |Split(s, sep)| ==> sep !in Split(s, sep)[i]
  {
    if |s| > 0 {
      SplitSepFree(s[1..], sep);
      var rest := Split(s[1..], sep);
      if s[0] != sep {
        var parts := Split(s, sep);
        assert parts[0] == [s[0]] + rest[0];
        forall i | 1 <= i < |parts| ensures sep !in parts[i] {
          assert parts[i] == rest[i];
        }
      }
    }
  }

  /** How a split unfolds on its first character. */
  lemma SplitCons(c: char, t: string, sep: char)
    ensures Split([c] + t, sep)
         == if c == sep then [""] + Split(t, sep)
            else [[c] + Split(t, sep)[0]] + Split(t, sep)[1..]
  {
    assert ([c] + t)[1..] == t;
  }

  /** The pieces of a string without white space have none either. */
  lemma {:induction false} SplitNoSpace(s: string, sep: char)
    requires NoSpace(s)
    ensures forall i :: 0 <= i < |Split(s, sep)| ==> NoSpace(Split(s, sep)[i])
  {
    if |s| > 0 {
      SplitNoSpace(s[1..], sep);
      SplitCons(s[0], s[1..], sep);
      assert s == [s[0]] + s[1..];
    }
  }

  /** `parts.join(sep)`. */
  function Join(parts: seq<string>, sep: char): string {
    if |parts| == 0 then ""
    else if |parts| == 1 then parts[0]
    else parts[0] + [sep] + Join(parts[1..], sep)
  }

  /** Joining the pieces of a split gives back the original string. */
  lemma {:induction false} JoinSplit(s: string, sep: char)
    ensures Join(Split(s, sep), sep) == s
  {
    if |s| > 0 {
      var rest := Split(s[1..], sep);
      JoinSplit(s[1..], sep);
      if s[0] == sep {
        assert ([""] + rest)[1..] == rest;
      } else {
        var parts := [[s[0]] + rest[0]] + rest[1..];
        assert parts[1..] == rest[1..];
        if |rest| > 1 {
          assert Join(rest, sep) == rest[0] + [sep] + Join(rest[1..], sep);
        }
        assert s == [s[0]] + s[1..];
      }
    }
  }

  /** A string without the separator splits into itself alone. */
  lemma {:induction false} SplitNoSep(s: string, sep: char)
    requires sep !in s
    ensures Split(s, sep) == [s]
  {
    if |s| > 0 {
      SplitNoSep(s[1..], sep);
      assert [s[0]] + s[1..] == s;
    }
  }

  /** Splitting around one separator occurrence splits both sides independently. */
  lemma {:induction false} SplitConcat(a: string, b: string, sep: char)
    ensures Split(a + [sep] + b, sep) == Split(a, sep) + Split(b, sep)
  {
    if |a| == 0 {
      assert a + [sep] + b == [sep] + b;
      SplitConsSep(b, sep);
    } else {
      SplitConcat(a[1..], b, sep);
      SplitConcatStep(a, b, sep);
    }
  }

  /** The inductive step of `SplitConcat`: from the tail of `a` to `a`. */
  lemma SplitConcatStep(a: string, b: string, sep: char)
    requires |a| > 0
    requires Split(a[1..] + [sep] + b, sep) == Split(a[1..], sep) + Split(b, sep)
    ensures Split(a + [sep] + b, sep) == Split(a, sep) + Split(b, sep)
  {
    var s, t := a + [sep] + b, a[1..] + [sep] + b;
    assert s[0] == a[0] && s[1..] == t;
    if a[0] == sep {
      SeqConsAssoc("", Split(a[1..], sep), Split(b, sep));
    } else {
      SplitOtherStep(a[0], Split(a[1..], sep), Split(b, sep));
    }
  }

  lemma SeqConsAssoc(x: string, ra: seq<string>, rb: seq<string>)
    ensures [x] + (ra + rb) == ([x] + ra) + rb
  {
  }

  /** Gluing a character to the first piece commutes with appending more pieces. */
  lemma SplitOtherStep(c: char, ra: seq<string>, rb: seq<string>)
    requires |ra| > 0
    ensures [[c] + (ra + rb)[0]] + (ra + rb)[1..] == ([[c] + ra[0]] + ra[1..]) + rb
  {
    assert (ra + rb)[0] == ra[0] && (ra + rb)[1..] == ra[1..] + rb;
  }

  lemma SplitConsSep(t: string, sep: char)
    ensures Split([sep] + t, sep) == [""] + Split(t, sep)
  {
    assert ([sep] + t)[1..] == t;
  }

  /** Splitting a join of separator-free pieces gives the pieces back. */
  lemma {:induction false} SplitJoin(parts: seq<string>, sep: char)
    requires |parts| >= 1
    requires forall i :: 0 <= i < |parts| ==> sep !in parts[i]
    ensures Split(Join(parts, sep), sep) == parts
  {
    SplitNoSep(parts[0], sep);
    if |parts| > 1 {
      SplitJoin(parts[1..], sep);
      SplitConcat(parts[0], Join(parts[1..], sep), sep);
      assert parts == [parts[0]] + parts[1..];
    }
  }

  /** A join of pieces without white space, on a separator that is not white space,
      has no white space. */
  lemma {:induction false} JoinNoSpace(parts: seq<string>, sep: char)
    requires !IsSpace(sep)
    requires forall i :: 0 <= i < |parts| ==> NoSpace(parts[i])
    ensures NoSpace(Join(parts, sep))
  {
    if |parts| > 1 {
      JoinNoSpace(parts[1..], sep);
    }
  }

  // ---------------------------------------------------------------- non-empty pieces

  /** The pieces of `parts` that are not the empty string, in order. */
  function NonEmpty(parts: seq<string>): seq<string> {
    if |parts| == 0 then []
    else if parts[0] == "" then NonEmpty(parts[1..])
    else [parts[0]] + NonEmpty(parts[1..])
  }

  /** `NonEmpty` keeps no empty piece. */
  lemma {:induction false} NonEmptyHasNoEmpty(parts: seq<string>)
    ensures forall i :: 0 <= i < |NonEmpty(parts)| ==> NonEmpty(parts)[i] != ""
  {
    if |parts| > 0 {
      NonEmptyHasNoEmpty(parts[1..]);
      NonEmptyCons(parts);
    }
  }

  /** Every piece `NonEmpty` keeps is taken from `parts`. */
  lemma {:induction false} NonEmptySubMultiset(parts: seq<string>)
    ensures multiset(NonEmpty(parts)) <= multiset(parts)
  {
    if |parts| > 0 {
      NonEmptySubMultiset(parts[1..]);
      NonEmptyCons(parts);
      assert multiset(parts) == multiset{parts[0]} + multiset(parts[1..]) by {
        assert parts == [parts[0]] + parts[1..];
      }
    }
  }

  /** A piece as a list of non-empty pieces: nothing when empty, itself otherwise. */
  function Filled(x: string): seq<string> {
    if x == "" then [] else [x]
  }

  /** `NonEmpty` on its first piece. */
  lemma NonEmptyCons(s: seq<string>)
    requires |s| > 0
    ensures NonEmpty(s) == Filled(s[0]) + NonEmpty(s[1..])
  {
  }

  lemma {:induction false} NonEmptyAppend(a: seq<string>, b: seq<string>)
    ensures NonEmpty(a + b) == NonEmpty(a) + NonEmpty(b)
  {
    if |a| > 0 {
      assert (a + b)[0] == a[0];
      assert (a + b)[1..] == a[1..] + b;
      NonEmptyAppend(a[1..], b);
    } else {
      assert a + b == b;
    }
  }

  /** Pieces that are all non-empty are kept as they are. */
  lemma {:induction false} NonEmptyOfNonEmpty(parts: seq<string>)
    requires forall i :: 0 <= i < |parts| ==> parts[i] != ""
    ensures NonEmpty(parts) == parts
  {
    if |parts| > 0 {
      NonEmptyOfNonEmpty(parts[1..]);
      assert parts == [parts[0]] + parts[1..];
    }
  }

  // ---------------------------------------------------------------- ordering and sort

  /** The default string order of `Array.prototype.sort`: lexicographic on characters. */
  predicate LexLe(a: string, b: string) {
    |a| == 0 || (|b| > 0 && (a[0] < b[0] || (a[0] == b[0] && LexLe(a[1..], b[1..]))))
  }

  lemma {:induction false} LexLeTotal(a: string, b: string)
    ensures LexLe(a, b) || LexLe(b, a)
  {
    if |a| > 0 && |b| > 0 && a[0] == b[0] {
      LexLeTotal(a[1..], b[1..]);
    }
  }

  lemma {:induction false} LexLeAntisymmetric(a: string, b: string)
    requires LexLe(a, b) && LexLe(b, a)
    ensures a == b
  {
    if |a| > 0 && |b| > 0 {
      LexLeAntisymmetric(a[1..], b[1..]);
      assert a == [a[0]] + a[1..] && b == [b[0]] + b[1..];
    }
  }

  lemma {:induction false} LexLeTransitive(a: string, b: string, c: string)
    requires LexLe(a, b) && LexLe(b, c)
    ensures LexLe(a, c)
  {
    if |a| > 0 && |b| > 0 && |c| > 0 && a[0] == b[0] == c[0] {
      LexLeTransitive(a[1..], b[1..], c[1..]);
    }
  }

  /** Each element is at most the next one under `LexLe`. */
  predicate Sorted(s: seq<string>) {
    |s| < 2 || (LexLe(s[0], s[1]) && Sorted(s[1..]))
  }

  /** Inserts `x` before the first element of `s` that it does not exceed. */
  function Insert(x: string, s: seq<string>): (r: seq<string>)
    ensures multiset(r) == multiset(s) + multiset{x}
  {
    if |s| == 0 then [x]
    else if LexLe(x, s[0]) then [x] + s
    else
      assert s == [s[0]] + s[1..];
      [s[0]] + Insert(x, s[1..])
  }

  /** `Array.prototype.sort()` with the default comparator. */
  function Sort(s: seq<string>): (r: seq<string>)
    ensures multiset(r) == multiset(s)
  {
    if |s| == 0 then []
    else
      assert s == [s[0]] + s[1..];
      Insert(s[0], Sort(s[1..]))
  }

  lemma {:induction false} InsertSorted(x: string, s: seq<string>)
    requires Sorted(s)
    ensures Sorted(Insert(x, s))
  {
    if |s| > 0 {
      if LexLe(x, s[0]) {
        assert ([x] + s)[1..] == s;
      } else {
        LexLeTotal(x, s[0]);
        InsertSorted(x, s[1..]);
        var t := Insert(x, s[1..]);
        assert ([s[0]] + t)[1..] == t;
        if |s| > 1 && !LexLe(x, s[1]) {
          assert t[0] == s[1];
        } else {
          assert t[0] == x;
        }
      }
    }
  }

  /** The result of `Sort` is the sorted permutation of its argument. */
  lemma {:induction false} SortSorted(s: seq<string>)
    ensures Sorted(Sort(s))
  {
    if |s| > 0 {
      SortSorted(s[1..]);
      InsertSorted(s[0], Sort(s[1..]));
    }
  }

  /** Two sorted sequences with the same elements (counted with multiplicity) are equal. */
  lemma {:induction false} SortedUnique(a: seq<string>, b: seq<string>)
    requires Sorted(a) && Sorted(b)
    requires multiset(a) == multiset(b)
    ensures a == b
  {
    assert |a| == |b| by {
      assert |multiset(a)| == |a| && |multiset(b)| == |b|;
    }
    if |a| > 0 {
      assert a[0] == b[0] by {
        assert a[0] in multiset(a) && b[0] in multiset(b);
        SortedHeadLeast(b, a[0]);
        SortedHeadLeast(a, b[0]);
        LexLeAntisymmetric(a[0], b[0]);
      }
      assert multiset(a[1..]) == multiset(b[1..]) by {
        MultisetTail(a);
        MultisetTail(b);
      }
      SortedUnique(a[1..], b[1..]);
      assert a == [a[0]] + a[1..] && b == [b[0]] + b[1..];
    }
  }

  /** The first element of a sorted sequence is below every element of it. */
  lemma {:induction false} SortedHeadLeast(a: seq<string>, x: string)
    requires Sorted(a) && x in multiset(a)
    ensures |a| > 0 && LexLe(a[0], x)
  {
    assert a == [a[0]] + a[1..];
    if a[0] == x {
      LexLeTotal(x, x);
    } else {
      assert x in multiset(a[1..]);
      SortedHeadLeast(a[1..], x);
      LexLeTransitive(a[0], a[1], x);
    }
  }

  lemma MultisetTail(a: seq<string>)
    requires |a| > 0
    ensures multiset(a[1..]) == multiset(a) - multiset{a[0]}
  {
    assert a == [a[0]] + a[1..];
  }

  // ---------------------------------------------------------------- trim

  function TrimStart(s: string): (r: string)
  {
    if |s| > 0 && IsSpace(s[0]) then TrimStart(s[1..]) else s
  }

  function TrimEnd(s: string): (r: string)
  {
    if |s| > 0 && IsSpace(s[|s| - 1]) then TrimEnd(s[..|s| - 1]) else s
  }

  /** `s.trim()`: drops white space at both ends. */
  function Trim(s: string): string {
    TrimEnd(TrimStart(s))
  }

  /** Every character is white space. */
  predicate AllSpace(s: string) {
    forall i :: 0 <= i < |s| ==> IsSpace(s[i])
  }

  /** `s.trim().length === 0` holds exactly of strings made only of white space. */
  lemma {:induction false} TrimEmptyIffAllSpace(s: string)
    ensures |Trim(s)| == 0 <==> AllSpace(s)
  {
    TrimStartEmpty(s);
    var t := TrimStart(s);
    TrimEndEmpty(t);
  }

  lemma {:induction false} TrimStartEmpty(s: string)
    ensures |TrimStart(s)| == 0 <==> AllSpace(s)
    ensures |TrimStart(s)| > 0 ==> !IsSpace(TrimStart(s)[0])
  {
    if |s| > 0 && IsSpace(s[0]) {
      TrimStartEmpty(s[1..]);
      assert forall i :: 1 <= i < |s| ==> s[i] == s[1..][i - 1];
    }
  }

  lemma {:induction false} TrimEndEmpty(t: string)
    requires |t| > 0 ==> !IsSpace(t[0])
    ensures |TrimEnd(t)| == 0 <==> |t| == 0
  {
    if |t| > 0 && IsSpace(t[|t| - 1]) {
      assert |t| > 1;
      TrimEndEmpty(t[..|t| - 1]);
    }
  }

  // ---------------------------------------------------------------- numbers

  function DigitChar(d: nat): (c: char)
    requires d < 10
    ensures '0' <= c <= '9'
  {
    ('0' as int + d) as char
  }

  /** Different digits are different characters. */
  lemma DigitCharInjective(d: nat, e: nat)
    requires d < 10 && e < 10
    ensures DigitChar(d) == DigitChar(e) ==> d == e
  {
    assert DigitChar(d) as int == '0' as int + d && DigitChar(e) as int == '0' as int + e;
  }

  /** The decimal digits of a natural number, most significant first, no leading zeros. */
  function NatToDecimal(n: nat): (r: string)
    ensures |r| >= 1
    ensures forall i :: 0 <= i < |r| ==> '0' <= r[i] <= '9'
    ensures |r| > 1 ==> r[0] != '0'
  {
    if n < 10 then [DigitChar(n)] else NatToDecimal(n / 10) + [DigitChar(n % 10)]
  }

  /** `'' + n` for an integer `n`: a minus sign for negative values, then the digits. */
  function NumberToString(n: int): (r: string)
    ensures |r| >= 1
    ensures r[0] == '-' <==> n < 0
    ensures n >= 0 ==> '0' <= r[0] <= '9'
    ensures forall i :: 1 <= i < |r| ==> '0' <= r[i] <= '9'
  {
    if n < 0 then "-" + NatToDecimal(-n) else NatToDecimal(n)
  }

  /** Different numbers have different decimal texts. */
  lemma {:induction false} NatToDecimalInjective(a: nat, b: nat)
    ensures NatToDecimal(a) == NatToDecimal(b) ==> a == b
  {
    var ra, rb := NatToDecimal(a), NatToDecimal(b);
    if ra == rb {
      if a >= 10 && b >= 10 {
        assert a / 10 == b / 10 by {
          assert ra[..|ra| - 1] == NatToDecimal(a / 10) && rb[..|rb| - 1] == NatToDecimal(b / 10);
          NatToDecimalInjective(a / 10, b / 10);
        }
        assert a % 10 == b % 10 by {
          assert DigitChar(a % 10) == ra[|ra| - 1] == DigitChar(b % 10);
          DigitCharInjective(a % 10, b % 10);
        }
      } else if a < 10 && b < 10 {
        assert DigitChar(a) == ra[0] == DigitChar(b);
        DigitCharInjective(a, b);
      }
    }
  }

  /** `'' + a` and `'' + b` are the same text only when `a` and `b` are the same number. */
  lemma NumberToStringInjective(a: int, b: int)
    ensures NumberToString(a) == NumberToString(b) ==> a == b
  {
    if NumberToString(a) == NumberToString(b) {
      if a < 0 {
        assert NumberToString(a)[1..] == NatToDecimal(-a) && NumberToString(b)[1..] == NatToDecimal(-b);
        NatToDecimalInjective(-a, -b);
      } else {
        NatToDecimalInjective(a, b);
      }
    }
  }
}
