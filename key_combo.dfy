/**
  Key-combination matching of the input-event watcher (`EventListener.equalsKey`,
  its inner `fix`, and `EventListener.containsKey`).

  A combo is a `+`-separated list of tokens such as `"ctrl+27"`. Two combos are equal
  when, after cleaning, their token lists sorted and rejoined are the same text;
  this module proves that this is exactly equality of the token multisets.
 */
module KeyCombo {
  import opened JsText

  // ---------------------------------------------------------------- the four passes of `fix`

  /** `replace(/\s+/g, '')`: drops every white-space character. */
  function RemoveSpaces(s: string): (r: string)
    ensures NoSpace(r)
    ensures NoSpace(s) ==> r == s
  {
    if |s| == 0 then ""
    else
      assert s == [s[0]] + s[1..];
      if IsSpace(s[0]) then RemoveSpaces(s[1..]) else [s[0]] + RemoveSpaces(s[1..])
  }

  /** The white-space pass works character by character: it splits over concatenation. */
  lemma {:induction false} RemoveSpacesAppend(a: string, b: string)
    ensures RemoveSpaces(a + b) == RemoveSpaces(a) + RemoveSpaces(b)
  {
    if |a| == 0 {
      assert a + b == b;
    } else {
      assert (a + b)[0] == a[0] && (a + b)[1..] == a[1..] + b;
      RemoveSpacesAppend(a[1..], b);
    }
  }

  /** On one character the white-space pass drops it exactly when it is white space. */
  lemma RemoveSpacesChar(c: char)
    ensures RemoveSpaces([c]) == if IsSpace(c) then "" else [c]
  {
    assert [c][1..] == "";
  }

  /** A run of white space disappears entirely. */
  lemma {:induction false} RemoveSpacesAllSpace(w: string)
    requires AllSpace(w)
    ensures RemoveSpaces(w) == ""
  {
    if |w| > 0 {
      assert AllSpace(w[1..]) by {
        assert forall i :: 0 <= i < |w| - 1 ==> w[1..][i] == w[i + 1];
      }
      RemoveSpacesAllSpace(w[1..]);
    }
  }

  /** No two adjacent characters are both `+`. */
  ghost predicate NoDoublePlus(s: string) {
    forall i, j :: 0 <= i < j < |s| && j == i + 1 ==> !(s[i] == '+' && s[j] == '+')
  }

  /** `replace(/\++/g, '+')`: every run of `+` becomes a single `+`. */
  function CollapsePlus(s: string): (r: string)
    ensures NoDoublePlus(r)
    ensures |s| > 0 ==> |r| > 0 && r[0] == s[0]
    ensures NoSpace(s) ==> NoSpace(r)
  {
    if |s| <= 1 then s
    else if s[0] == '+' && s[1] == '+' then CollapsePlus(s[1..])
    else [s[0]] + CollapsePlus(s[1..])
  }

  /** `replace(/^\++/g, '')`: drops the `+` characters at the start. */
  function StripLeadingPlus(s: string): (r: string)
    ensures |r| <= |s| && r == s[|s| - |r|..]
    ensures |r| > 0 ==> r[0] != '+'
  {
    if |s| > 0 && s[0] == '+' then StripLeadingPlus(s[1..]) else s
  }

  /** `replace(/\++$/g, '')`: drops the `+` characters at the end. */
  function StripTrailingPlus(s: string): (r: string)
    ensures |r| <= |s| && r == s[..|r|]
    ensures |r| > 0 ==> r[|r| - 1] != '+'
  {
    if |s| > 0 && s[|s| - 1] == '+' then StripTrailingPlus(s[..|s| - 1]) else s
  }

  /** What `fix` promises of its result: no white space, no `"++"`, and no `+` at either end. */
  ghost predicate Clean(s: string) {
    && NoSpace(s)
    && NoDoublePlus(s)
    && (|s| > 0 ==> s[0] != '+' && s[|s| - 1] != '+')
  }

  /** The cleaning function `fix` of `equalsKey`. */
  function Fix(s: string): (r: string)
    ensures Clean(r)
  {
    var noSpace := RemoveSpaces(s);
    var collapsed := CollapsePlus(noSpace);
    var noLead := StripLeadingPlus(collapsed);
    assert NoDoublePlus(noLead) && NoSpace(noLead) by {
      var k := |collapsed| - |noLead|;
      assert forall i :: 0 <= i < |noLead| ==> noLead[i] == collapsed[k + i];
    }
    StripTrailingPlus(noLead)
  }

  /** The tokens `fix(s).split('+')` that `equalsKey` sorts. */
  function Tokens(s: string): seq<string> {
    Split(Fix(s), '+')
  }

  /** `equalsKey(code, key)`: cleans both, splits on `+`, sorts, rejoins, compares. */
  predicate EqualsKey(code: string, key: string) {
    Canonical(code) == Canonical(key)
  }

  /** A combo cleaned, split on `+`, sorted and rejoined: the text `equalsKey` compares. */
  function Canonical(s: string): string {
    Join(Sort(Split(Fix(s), '+')), '+')
  }

  // ---------------------------------------------------------------- `fix` keeps the non-empty tokens

  /** The text before the first `+`. */
  function FirstPiece(s: string): string {
    Split(s, '+')[0]
  }

  /** The non-empty pieces after the first `+`. */
  function LaterTokens(s: string): seq<string> {
    NonEmpty(Split(s, '+')[1..])
  }

  /** How the first piece and the later tokens unfold on the first character. */
  lemma PiecesCons(c: char, t: string)
    ensures c != '+' ==> FirstPiece([c] + t) == [c] + FirstPiece(t) && LaterTokens([c] + t) == LaterTokens(t)
    ensures c == '+' ==> FirstPiece([c] + t) == "" && LaterTokens([c] + t) == Filled(FirstPiece(t)) + LaterTokens(t)
  {
    SplitCons(c, t, '+');
    var p := Split(t, '+');
    if c == '+' {
      assert ([""] + p)[1..] == p;
      NonEmptyCons(p);
    } else {
      assert ([[c] + p[0]] + p[1..])[1..] == p[1..];
    }
  }

  /** All non-empty pieces: the first piece if filled, then the later tokens. */
  lemma AllTokens(s: string)
    ensures NonEmpty(Split(s, '+')) == Filled(FirstPiece(s)) + LaterTokens(s)
  {
    NonEmptyCons(Split(s, '+'));
  }

  lemma {:induction false} StripLeadingKeepsTokens(s: string)
    ensures NonEmpty(Split(StripLeadingPlus(s), '+')) == NonEmpty(Split(s, '+'))
  {
    if |s| > 0 && s[0] == '+' {
      var t := s[1..];
      StripLeadingKeepsTokens(t);
      assert s == [s[0]] + t;
      PiecesCons(s[0], t);
      AllTokens(s);
      AllTokens(t);
    }
  }

  lemma {:induction false} StripTrailingKeepsTokens(s: string)
    ensures NonEmpty(Split(StripTrailingPlus(s), '+')) == NonEmpty(Split(s, '+'))
  {
    if |s| > 0 && s[|s| - 1] == '+' {
      var t := s[..|s| - 1];
      assert NonEmpty(Split(StripTrailingPlus(s), '+')) == NonEmpty(Split(t, '+')) by {
        StripTrailingKeepsTokens(t);
      }
      assert NonEmpty(Split(t, '+')) == NonEmpty(Split(s, '+')) by {
        assert s == t + ['+'];
        TrailingPlusAddsEmptyToken(t);
      }
    }
  }

  /** A trailing `+` adds only an empty piece, which `NonEmpty` drops. */
  lemma TrailingPlusAddsEmptyToken(t: string)
    ensures NonEmpty(Split(t + ['+'], '+')) == NonEmpty(Split(t, '+'))
  {
    assert t + ['+'] == t + ['+'] + "";
    SplitConcat(t, "", '+');
    NonEmptyAppend(Split(t, '+'), [""]);
    assert NonEmpty([""]) == [];
  }

  /** Collapsing keeps the first piece and the non-empty later pieces. */
  lemma {:induction false} CollapseKeepsTokens(s: string)
    ensures FirstPiece(CollapsePlus(s)) == FirstPiece(s)
    ensures LaterTokens(CollapsePlus(s)) == LaterTokens(s)
  {
    if |s| > 1 {
      var t := s[1..];
      assert s == [s[0]] + t;
      CollapseKeepsTokens(t);
      PiecesCons(s[0], t);
      if s[0] == '+' && s[1] == '+' {
        assert t == [t[0]] + t[1..];
        PiecesCons(t[0], t[1..]);
      } else {
        PiecesCons(s[0], CollapsePlus(t));
      }
    }
  }

  /** Every piece after the first of a string without `"++"` that does not end in `+`
      is non-empty, and the first is non-empty unless the string starts with `+`. */
  lemma {:induction false} NoDoublePlusPieces(s: string)
    requires |s| > 0 && NoDoublePlus(s) && s[|s| - 1] != '+'
    ensures forall i :: 1 <= i < |Split(s, '+')| ==> Split(s, '+')[i] != ""
    ensures Split(s, '+')[0] != "" <==> s[0] != '+'
  {
    var t := s[1..];
    assert s == [s[0]] + t;
    SplitCons(s[0], t, '+');
    if |t| == 0 {
      assert Split(t, '+') == [""];
    } else {
      assert t[|t| - 1] == s[|s| - 1];
      assert NoDoublePlus(t) by {
        assert forall i :: 0 <= i < |t| ==> t[i] == s[i + 1];
      }
      NoDoublePlusPieces(t);
      if s[0] == '+' {
        assert t[0] == s[1] != '+';
      }
    }
  }

  /** A clean string is the `+`-join of its non-empty pieces. */
  lemma CleanIsJoinOfTokens(r: string)
    requires Clean(r)
    ensures r == Join(NonEmpty(Split(r, '+')), '+')
  {
    if |r| > 0 {
      NoDoublePlusPieces(r);
      NonEmptyOfNonEmpty(Split(r, '+'));
      JoinSplit(r, '+');
    }
  }

  /** `fix(s)` is the `+`-join of the non-empty `+`-pieces of `s` once white space is removed. */
  lemma FixIsJoinOfTokens(s: string)
    ensures Fix(s) == Join(NonEmpty(Split(RemoveSpaces(s), '+')), '+')
  {
    var noSpace := RemoveSpaces(s);
    var collapsed := CollapsePlus(noSpace);
    var noLead := StripLeadingPlus(collapsed);
    assert NonEmpty(Split(collapsed, '+')) == NonEmpty(Split(noSpace, '+')) by {
      CollapseKeepsTokens(noSpace);
      AllTokens(collapsed);
      AllTokens(noSpace);
    }
    StripLeadingKeepsTokens(collapsed);
    StripTrailingKeepsTokens(noLead);
    CleanIsJoinOfTokens(Fix(s));
  }

  /** Blanks anywhere in a combo are irrelevant to its tokens. */
  lemma TokensIgnoreSpaces(s: string)
    ensures Tokens(s) == Tokens(RemoveSpaces(s))
  {
    FixIsJoinOfTokens(s);
    FixIsJoinOfTokens(RemoveSpaces(s));
  }

  /** White space inserted anywhere in a combo does not change what `fix` makes of it. */
  lemma FixIgnoresBlanks(a: string, w: string, b: string)
    requires AllSpace(w)
    ensures Fix(a + w + b) == Fix(a + b)
  {
    assert RemoveSpaces(a + w + b) == RemoveSpaces(a + b) by {
      RemoveSpacesAppend(a + w, b);
      RemoveSpacesAppend(a, w);
      RemoveSpacesAllSpace(w);
      RemoveSpacesAppend(a, b);
    }
    FixIsJoinOfTokens(a + w + b);
    FixIsJoinOfTokens(a + b);
  }

  /** White space inserted anywhere in a combo never changes the outcome of `equalsKey`,
      so `" ctrl + 27 "` and `"ctrl+27"` are the same combo. */
  lemma EqualsKeyIgnoresBlanks(a: string, w: string, b: string, key: string)
    requires AllSpace(w)
    ensures EqualsKey(a + w + b, key) == EqualsKey(a + b, key)
    ensures EqualsKey(key, a + w + b) == EqualsKey(key, a + b)
  {
    FixIgnoresBlanks(a, w, b);
  }

  /** Cleaning twice is cleaning once. */
  lemma FixIdempotent(s: string)
    ensures Fix(Fix(s)) == Fix(s)
  {
    var r := Fix(s);
    FixIsJoinOfTokens(r);
    CleanIsJoinOfTokens(r);
  }

  /** The tokens of a combo are either the single empty token (nothing but `+` and
      white space) or non-empty pieces free of `+` and white space. */
  lemma TokensShape(s: string)
    ensures var t := Tokens(s);
      || (t == [""] && Fix(s) == "")
      || (Fix(s) != "" && forall i :: 0 <= i < |t| ==> t[i] != "" && '+' !in t[i] && NoSpace(t[i]))
  {
    var r := Fix(s);
    SplitNoSpace(r, '+');
    SplitSepFree(r, '+');
    if |r| > 0 {
      NoDoublePlusPieces(r);
    }
  }

  /** Cleaning a `+`-join of pieces free of `+` and white space drops its empty pieces. */
  lemma FixOfJoin(pieces: seq<string>)
    requires |pieces| >= 1
    requires forall i :: 0 <= i < |pieces| ==> '+' !in pieces[i] && NoSpace(pieces[i])
    ensures Fix(Join(pieces, '+')) == Join(NonEmpty(pieces), '+')
  {
    var s := Join(pieces, '+');
    JoinNoSpace(pieces, '+');
    assert RemoveSpaces(s) == s;
    SplitJoin(pieces, '+');
    FixIsJoinOfTokens(s);
  }

  lemma SplitJoinNonEmpty(pieces: seq<string>)
    requires forall i :: 0 <= i < |pieces| ==> '+' !in pieces[i]
    ensures var ne := NonEmpty(pieces);
      Split(Join(ne, '+'), '+') == if ne == [] then [""] else ne
  {
    var ne := NonEmpty(pieces);
    NonEmptySubMultiset(pieces);
    if ne != [] {
      forall i | 0 <= i < |ne| ensures '+' !in ne[i] {
        assert ne[i] in multiset(pieces);
      }
      SplitJoin(ne, '+');
    }
  }

  /** The tokens of a `+`-join of pieces free of `+` and white space are its non-empty
      pieces, or the single empty token when every piece is empty. */
  lemma TokensOfJoin(pieces: seq<string>)
    requires |pieces| >= 1
    requires forall i :: 0 <= i < |pieces| ==> '+' !in pieces[i] && NoSpace(pieces[i])
    ensures Tokens(Join(pieces, '+')) == if NonEmpty(pieces) == [] then [""] else NonEmpty(pieces)
  {
    FixOfJoin(pieces);
    SplitJoinNonEmpty(pieces);
  }

  // ---------------------------------------------------------------- what `equalsKey` decides

  /** Declared combos written without blanks, doubled or outer `+` keep their pieces. */
  lemma TokensOfCleanJoin(pieces: seq<string>)
    requires |pieces| >= 1
    requires forall i :: 0 <= i < |pieces| ==> pieces[i] != "" && '+' !in pieces[i] && NoSpace(pieces[i])
    ensures Tokens(Join(pieces, '+')) == pieces
  {
    TokensOfJoin(pieces);
    NonEmptyOfNonEmpty(pieces);
  }

  /** `equalsKey` holds exactly when both combos have the same tokens, counted with multiplicity. */
  lemma EqualsKeyIffSameTokens(code: string, key: string)
    ensures EqualsKey(code, key) <==> multiset(Tokens(code)) == multiset(Tokens(key))
  {
    var a, b := Sort(Tokens(code)), Sort(Tokens(key));
    SplitSepFree(Fix(code), '+');
    SplitSepFree(Fix(key), '+');
    if multiset(Tokens(code)) == multiset(Tokens(key)) {
      SortSorted(Tokens(code));
      SortSorted(Tokens(key));
      SortedUnique(a, b);
    }
    if EqualsKey(code, key) {
      forall i | 0 <= i < |a| ensures '+' !in a[i] {
        assert a[i] in multiset(Tokens(code));
      }
      forall i | 0 <= i < |b| ensures '+' !in b[i] {
        assert b[i] in multiset(Tokens(key));
      }
      assert |a| >= 1 && |b| >= 1 by {
        assert |multiset(a)| == |Tokens(code)| && |multiset(b)| == |Tokens(key)|;
      }
      SplitJoin(a, '+');
      SplitJoin(b, '+');
    }
  }

  /** Reordering the tokens of a combo never changes the outcome of `equalsKey`. */
  lemma EqualsKeyIgnoresOrder(code: string, reordered: seq<string>, key: string)
    requires multiset(reordered) == multiset(Tokens(code))
    ensures EqualsKey(Join(reordered, '+'), key) == EqualsKey(code, key)
  {
    TokensShape(code);
    var t := Tokens(code);
    forall i | 0 <= i < |reordered|
      ensures '+' !in reordered[i] && NoSpace(reordered[i])
      ensures t == [""] || reordered[i] != ""
    {
      assert reordered[i] in multiset(t);
    }
    assert |reordered| >= 1 by {
      assert |multiset(reordered)| == |t|;
    }
    TokensOfJoin(reordered);
    if t == [""] {
      assert multiset(reordered) == multiset{""};
      assert reordered[0] == "";
      assert |reordered| == 1;
      assert reordered == [""];
    } else {
      NonEmptyOfNonEmpty(reordered);
    }
    EqualsKeyIffSameTokens(Join(reordered, '+'), key);
    EqualsKeyIffSameTokens(code, key);
  }

  /** White space and repeated, leading or trailing `+` never change the outcome:
      `equalsKey` sees a combo only through its cleaned form. */
  lemma EqualsKeyIgnoresCleaning(code: string, key: string)
    ensures EqualsKey(Fix(code), key) == EqualsKey(code, key)
    ensures EqualsKey(code, Fix(key)) == EqualsKey(code, key)
  {
    FixIdempotent(code);
    FixIdempotent(key);
  }

  /** `equalsKey` is an equivalence: reflexive, symmetric and transitive. */
  lemma EqualsKeyEquivalence(a: string, b: string, c: string)
    ensures EqualsKey(a, a)
    ensures EqualsKey(a, b) == EqualsKey(b, a)
    ensures EqualsKey(a, b) && EqualsKey(b, c) ==> EqualsKey(a, c)
  {
  }

  // ---------------------------------------------------------------- `containsKey`

  /** Some element of `xs` satisfies `p`, looked for from the front. */
  predicate Any(xs: seq<string>, p: string -> bool) {
    |xs| > 0 && (p(xs[0]) || Any(xs[1..], p))
  }

  /** The front-to-back search succeeds exactly when some position satisfies `p`. */
  lemma AnyIff(xs: seq<string>, p: string -> bool)
    ensures Any(xs, p) <==> exists i :: 0 <= i < |xs| && p(xs[i])
  {
    if Any(xs, p) {
      var i := AnyWitness(xs, p);
    }
    if exists i :: 0 <= i < |xs| && p(xs[i]) {
      var i :| 0 <= i < |xs| && p(xs[i]);
      AnyAt(xs, p, i);
    }
  }

  lemma {:induction false} AnyAt(xs: seq<string>, p: string -> bool, i: nat)
    requires i < |xs| && p(xs[i])
    ensures Any(xs, p)
  {
    if i > 0 {
      assert xs[1..][i - 1] == xs[i];
      AnyAt(xs[1..], p, i - 1);
    }
  }

  lemma {:induction false} AnyWitness(xs: seq<string>, p: string -> bool) returns (i: nat)
    requires Any(xs, p)
    ensures i < |xs| && p(xs[i])
  {
    if Any(xs[1..], p) {
      var j := AnyWitness(xs[1..], p);
      assert xs[j + 1] == xs[1..][j];
      i := j + 1;
    } else {
      i := 0;
    }
  }

  /** A first element that fails `p` does not change the outcome of the search. */
  lemma AnySkip(xs: seq<string>, p: string -> bool)
    requires |xs| > 0 && !p(xs[0])
    ensures Any(xs, p) == Any(xs[1..], p)
  {
  }

  /** Some declared combo is equal to `key`, looked for from the front as `containsKey` does. */
  predicate AnyMatch(codes: seq<string>, key: string) {
    Any(codes, code => EqualsKey(code, key))
  }

  /** The scan finds a match exactly when some declared combo is equal to `key`. */
  lemma AnyMatchIff(codes: seq<string>, key: string)
    ensures AnyMatch(codes, key) <==> exists i :: 0 <= i < |codes| && EqualsKey(codes[i], key)
  {
    AnyIff(codes, code => EqualsKey(code, key));
  }

  /** `containsKey(codes, key)`: scans `codes` in order and stops at the first equal combo. */
  method ContainsKey(codes: seq<string>, key: string) returns (found: bool)
    ensures found <==> exists i :: 0 <= i < |codes| && EqualsKey(codes[i], key)
    ensures found == AnyMatch(codes, key)
    ensures codes == [] ==> !found
  {
    AnyMatchIff(codes, key);
    var i := 0;
    while i < |codes|
      invariant 0 <= i <= |codes|
      invariant AnyMatch(codes[i..], key) == AnyMatch(codes, key)
    {
      if EqualsKey(codes[i], key) {
        return true;
      }
      AnySkip(codes[i..], code => EqualsKey(code, key));
      assert codes[i..][1..] == codes[i + 1..];
      i := i + 1;
    }
    return false;
  }
}
