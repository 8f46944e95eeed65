/**
 What tokens, comparison, ranges and verdicts of the KEV kit say in terms of the version texts themselves.
 */
module VersionMeaning {
  import opened Sequences
  import opened Decimals
  import opened Versions

  // ---- tokens ----

  predicate Letter(c: char) { 'a' <= c <= 'z' || 'A' <= c <= 'Z' }

  /** Both letters, or both digits. */
  predicate SameKind(c: char, d: char) { (Letter(c) && Letter(d)) || ('0' <= c <= '9' && '0' <= d <= '9') }

  /** A run of letters or of digits that cannot be extended on either side. */
  predicate MaximalRun(s: string, i: nat, j: nat) {
    && i < j <= |s| && (forall k {:trigger SameKind(s[k], s[i])} :: i <= k < j ==> SameKind(s[k], s[i]))
    && (i > 0 ==> !SameKind(s[i - 1], s[i])) && (j < |s| ==> !SameKind(s[j], s[i]))
  }

  /** c in lower case. */
  predicate LowerOf(lower: char, c: char) {
    || ('a' <= c <= 'z' && lower == c)
    || ('A' <= c <= 'Z' && 'a' <= lower && lower as int - 'a' as int == c as int - 'A' as int)
  }

  /** A run of digits is its number, a run of letters its lower-case word. */
  predicate Denotes(run: string, t: Token) {
    match t
    case Num(n) => AllDigits(run) && ParseNat(run) == n
    case Word(w) => |w| == |run| && forall k :: 0 <= k < |run| ==> LowerOf(w[k], run[k])
  }

  /** A token and the run of the text it stands for. */
  datatype Piece = Piece(token: Token, from: nat, to: nat)

  predicate IsPiece(s: string, p: Piece) { MaximalRun(s, p.from, p.to) && Denotes(s[p.from..p.to], p.token) }

  predicate Ends(p: Piece, next: Piece) { p.to <= next.from }

  predicate InOrder(pieces: seq<Piece>) {
    forall i, j {:trigger Ends(pieces[i], pieces[j])} :: 0 <= i < j < |pieces| ==> Ends(pieces[i], pieces[j])
  }

  predicate Covered(pieces: seq<Piece>, i: nat) { exists p :: p in pieces && p.from <= i < p.to }

  /** From position n on, the pieces are runs of the text, in order, and no letter or digit is left out. */
  ghost predicate CutFrom(s: string, n: nat, pieces: seq<Piece>) {
    && (forall p :: p in pieces ==> IsPiece(s, p) && n <= p.from)
    && InOrder(pieces)
    && (forall i {:trigger Covered(pieces, i)} :: n <= i < |s| && SameKind(s[i], s[i]) ==> Covered(pieces, i))
  }

  function TokensIn(pieces: seq<Piece>): (ts: seq<Token>)
    ensures |ts| == |pieces| && forall k :: 0 <= k < |ts| ==> ts[k] == pieces[k].token
  {
    seq(|pieces|, k requires 0 <= k < |pieces| => pieces[k].token)
  }

  lemma TokensInCons(first: Piece, rest: seq<Piece>)
    ensures TokensIn([first] + rest) == [first.token] + TokensIn(rest)
  {
  }

  lemma KindIsClass(c: char, d: char)
    ensures SameKind(c, d) <==> ClassOf(LowerChar(c)) == ClassOf(LowerChar(d)) != OtherClass
  {
  }

  function Shift(p: Piece, n: nat): Piece { Piece(p.token, p.from + n, p.to + n) }

  function Shifted(pieces: seq<Piece>, n: nat): (shifted: seq<Piece>)
    ensures |shifted| == |pieces| && forall k :: 0 <= k < |pieces| ==> shifted[k] == Shift(pieces[k], n)
    ensures TokensIn(shifted) == TokensIn(pieces)
  {
    seq(|pieces|, k requires 0 <= k < |pieces| => Shift(pieces[k], n))
  }

  /** Behind a prefix that ends where no run goes on, the runs are those of the rest. */
  lemma PieceShifted(s: string, n: nat, p: Piece)
    requires 0 < n <= |s| && IsPiece(s[n..], p) && (n < |s| ==> !SameKind(s[n - 1], s[n]))
    ensures IsPiece(s, Shift(p, n))
  {
    var rest := s[n..];
    assert forall k :: 0 <= k < |rest| ==> rest[k] == s[k + n];
    assert s[p.from + n..p.to + n] == rest[p.from..p.to];
    forall k | p.from + n <= k < p.to + n ensures SameKind(s[k], s[p.from + n]) {
      assert SameKind(rest[k - n], rest[p.from]);
    }
  }

  lemma CoveredShifted(s: string, n: nat, pieces: seq<Piece>, i: nat)
    requires n <= i < |s| && CutFrom(s[n..], 0, pieces) && SameKind(s[i], s[i])
    ensures Covered(Shifted(pieces, n), i)
  {
    assert s[n..][i - n] == s[i];
    assert Covered(pieces, i - n);
    var k :| 0 <= k < |pieces| && pieces[k].from <= i - n < pieces[k].to;
    assert Shifted(pieces, n)[k] == Shift(pieces[k], n) && Shifted(pieces, n)[k] in Shifted(pieces, n);
  }

  lemma PiecesShifted(s: string, n: nat, pieces: seq<Piece>)
    requires 0 < n <= |s| && CutFrom(s[n..], 0, pieces) && (n < |s| ==> !SameKind(s[n - 1], s[n]))
    ensures CutFrom(s, n, Shifted(pieces, n))
  {
    var shifted := Shifted(pieces, n);
    forall p | p in shifted ensures IsPiece(s, p) && n <= p.from {
      var k :| 0 <= k < |shifted| && shifted[k] == p;
      assert pieces[k] in pieces;
      PieceShifted(s, n, pieces[k]);
    }
    forall i, j | 0 <= i < j < |shifted| ensures Ends(shifted[i], shifted[j]) {
      assert Ends(pieces[i], pieces[j]);
    }
    forall i | n <= i < |s| && SameKind(s[i], s[i]) ensures Covered(shifted, i) {
      CoveredShifted(s, n, pieces, i);
    }
  }

  lemma LowerSlices(s: string, n: nat)
    requires n <= |s|
    ensures Lower(s)[n..] == Lower(s[n..]) && Lower(s)[..n] == Lower(s[..n])
  {
  }

  lemma FirstRunDenotes(s: string, n: nat)
    requires 0 < n <= |s| && (forall k :: 0 <= k < n ==> SameKind(s[k], s[0])) && (n < |s| ==> !SameKind(s[n], s[0]))
    ensures IsPiece(s, Piece(TokenOf(Lower(s)[..n]), 0, n))
  {
    var part := Lower(s)[..n];
    assert s[0..n] == s[..n];
    if '0' <= s[0] <= '9' {
      forall k | 0 <= k < n ensures IsDigit(part[k]) && part[k] == s[..n][k] {
        assert SameKind(s[k], s[0]);
      }
      assert part == s[..n];
    } else {
      assert SameKind(s[0], s[0]) && !IsDigit(part[0]);
      forall k | 0 <= k < n ensures LowerOf(part[k], s[..n][k]) {
        assert SameKind(s[k], s[0]);
      }
    }
  }

  lemma {:induction false} PartsCut(s: string) returns (pieces: seq<Piece>)
    ensures CutFrom(s, 0, pieces) && TokensIn(pieces) == TokensOfParts(Parts(Lower(s)))
    decreases |s|
  {
    var lower := Lower(s);
    if s == "" {
      pieces := [];
    } else if ClassOf(lower[0]) == OtherClass {
      KindIsClass(s[0], s[0]);
      var rest := PartsCut(s[1..]);
      LowerSlices(s, 1);
      assert 1 < |s| ==> !SameKind(s[0], s[1]);
      PiecesShifted(s, 1, rest);
      pieces := Shifted(rest, 1);
      assert !SameKind(s[0], s[0]);
    } else {
      pieces := FirstCut(s, Run(lower, ClassOf(lower[0])));
    }
  }

  lemma FirstRunMaximal(s: string, n: nat)
    requires s != "" && ClassOf(Lower(s)[0]) != OtherClass && n == Run(Lower(s), ClassOf(Lower(s)[0]))
    ensures 0 < n <= |s| && (forall k :: 0 <= k < n ==> SameKind(s[k], s[0]))
    ensures n < |s| ==> !SameKind(s[n], s[0]) && !SameKind(s[n - 1], s[n])
  {
    var lower := Lower(s);
    forall k | 0 <= k < |s| ensures SameKind(s[k], s[0]) <==> ClassOf(lower[k]) == ClassOf(lower[0]) {
      KindIsClass(s[k], s[0]);
    }
    assert n > 0;
  }

  lemma FirstCut(s: string, n: nat) returns (pieces: seq<Piece>)
    requires s != "" && ClassOf(Lower(s)[0]) != OtherClass && n == Run(Lower(s), ClassOf(Lower(s)[0]))
    ensures CutFrom(s, 0, pieces) && TokensIn(pieces) == TokensOfParts(Parts(Lower(s)))
    decreases |s|, 0
  {
    FirstRunMaximal(s, n);
    var rest := PartsCut(s[n..]);
    PiecesShifted(s, n, rest);
    FirstRunDenotes(s, n);
    var first := Piece(TokenOf(Lower(s)[..n]), 0, n);
    pieces := [first] + Shifted(rest, n);
    PiecesJoined(s, n, first, Shifted(rest, n));
    PartsFirst(s, n);
    TokensInCons(first, Shifted(rest, n));
  }

  lemma PartsFirst(s: string, n: nat)
    requires s != "" && ClassOf(Lower(s)[0]) != OtherClass && n == Run(Lower(s), ClassOf(Lower(s)[0])) > 0
    ensures TokensOfParts(Parts(Lower(s))) == [TokenOf(Lower(s)[..n])] + TokensOfParts(Parts(Lower(s[n..])))
  {
    LowerSlices(s, n);
    assert Parts(Lower(s)) == [Lower(s)[..n]] + Parts(Lower(s[n..]));
  }

  lemma PiecesJoined(s: string, n: nat, first: Piece, rest: seq<Piece>)
    requires n <= |s| && IsPiece(s, first) && first.from == 0 && first.to == n && CutFrom(s, n, rest)
    ensures CutFrom(s, 0, [first] + rest)
  {
    var all := [first] + rest;
    forall i, j | 0 <= i < j < |all| ensures Ends(all[i], all[j]) {
      assert all[j] == rest[j - 1] && rest[j - 1] in rest;
      assert i > 0 ==> all[i] == rest[i - 1] && Ends(rest[i - 1], rest[j - 1]);
    }
    forall i | 0 <= i < |s| && SameKind(s[i], s[i]) ensures Covered(all, i) {
      if i < n {
        assert first in all;
      } else {
        assert Covered(rest, i);
        var p :| p in rest && p.from <= i < p.to;
        assert p in all;
      }
    }
  }

  lemma {:induction false} RunBeforeOther(s: string, o: char, c: CharClass)
    requires ClassOf(o) == OtherClass != c
    ensures Run(s + [o], c) == Run(s, c)
  {
    if s != [] && ClassOf(s[0]) == c {
      assert (s + [o])[1..] == s[1..] + [o];
      RunBeforeOther(s[1..], o, c);
    }
  }

  lemma {:induction false} PartsBeforeOther(s: string, o: char)
    requires ClassOf(o) == OtherClass
    ensures Parts(s + [o]) == Parts(s)
    decreases |s|
  {
    if s == [] {
      assert [] + [o] == [o] && [o][1..] == [];
    } else if ClassOf(s[0]) == OtherClass {
      assert (s + [o])[1..] == s[1..] + [o];
      PartsBeforeOther(s[1..], o);
    } else {
      var n := Run(s, ClassOf(s[0]));
      RunBeforeOther(s, o, ClassOf(s[0]));
      assert (s + [o])[..n] == s[..n] && (s + [o])[n..] == s[n..] + [o];
      PartsBeforeOther(s[n..], o);
    }
  }

  /** Stripping white space does not change the parts. */
  lemma {:induction false} StripHarmless(s: string)
    ensures Parts(Lower(Strip(s))) == Parts(Lower(s))
    decreases |s|
  {
    if s != [] && IsSpace(s[0]) {
      StripHarmless(s[1..]);
      LowerSlices(s, 1);
    } else if s != [] && IsSpace(s[|s| - 1]) {
      StripHarmless(s[..|s| - 1]);
      LowerSlices(s, |s| - 1);
      PartsBeforeOther(Lower(s)[..|s| - 1], Lower(s)[|s| - 1]);
      assert Lower(s) == Lower(s)[..|s| - 1] + [Lower(s)[|s| - 1]];
    }
  }

  /** The tokens of a version text are what its maximal runs of letters and of digits denote, in order. */
  lemma TokensExactly(s: string)
    ensures exists pieces :: CutFrom(s, 0, pieces) && Tokens(Some(s)) == TokensIn(pieces)
    ensures Tokens(None) == []
  {
    StripHarmless(s);
    assert Lower("") == "";
    var pieces := PartsCut(s);
    assert Tokens(Some(s)) == TokensOfParts(Parts(Lower(s)));
  }

  /** A field counts as given if it holds anything but white space. */
  lemma {:induction false} GivenExactly(s: string)
    ensures FirstNonEmpty(Some(s)).Some? <==> exists k :: 0 <= k < |s| && !(s[k] == ' ' || '\t' <= s[k] <= '\r')
    ensures FirstNonEmpty(None).None?
    decreases |s|
  {
    if s != [] && IsSpace(s[0]) {
      GivenExactly(s[1..]);
      assert forall k :: 0 < k < |s| ==> s[k] == s[1..][k - 1];
    } else if s != [] && IsSpace(s[|s| - 1]) {
      GivenExactly(s[..|s| - 1]);
      assert forall k :: 0 <= k < |s| - 1 ==> s[k] == s[..|s| - 1][k];
    }
  }

  // ---- the order ----

  /** Numbers by value, words by their letters, a number before any word. */
  predicate Below(l: Token, r: Token) {
    match (l, r)
    case (Num(m), Num(n)) => m < n
    case (Num(_), Word(_)) => true
    case (Word(_), Num(_)) => false
    case (Word(v), Word(w)) => TextLess(v, w)
  }

  lemma BelowExactly(l: Token, r: Token)
    requires Proper(l) && Proper(r)
    ensures TokenLess(l, r) <==> Below(l, r)
  {
    if l.Num? && r.Word? {
      NumberBelowWord(l, r);
    } else if l.Word? && r.Num? {
      NumberBelowWord(r, l);
    }
  }

  /** At the first difference a is below b, or a ends where b goes on. */
  ghost predicate Earlier(a: seq<Token>, b: seq<Token>) { exists k :: EarlierAt(a, b, k) }

  ghost predicate EarlierAt(a: seq<Token>, b: seq<Token>, k: nat) {
    k <= |a| && k < |b| && a[..k] == b[..k] && (k == |a| || Below(a[k], b[k]))
  }

  lemma EarlierTail(a: seq<Token>, b: seq<Token>)
    requires a != [] && b != [] && a[0] == b[0] && Proper(a[0])
    ensures Earlier(a, b) <==> Earlier(a[1..], b[1..])
  {
    TokenTrichotomy(a[0], a[0]);
    BelowExactly(a[0], a[0]);
    if k: nat :| EarlierAt(a, b, k) {
      assert k > 0;
      EarlierNext(a, b, k - 1);
    }
    if k: nat :| EarlierAt(a[1..], b[1..], k) {
      EarlierNext(a, b, k);
    }
  }

  /** Comparison is the order by the first difference. */
  lemma {:induction false} EarlierExactly(a: seq<Token>, b: seq<Token>)
    requires AllProper(a) && AllProper(b)
    ensures CompareTokens(a, b) < 0 <==> Earlier(a, b)
    decreases |a|
  {
    if a != [] && b != [] {
      assert Proper(a[0]) && Proper(b[0]);
      BelowExactly(a[0], b[0]);
      if a[0] == b[0] {
        EarlierExactly(a[1..], b[1..]);
        EarlierTail(a, b);
      } else {
        assert a[..0] == b[..0];
        assert Below(a[0], b[0]) ==> EarlierAt(a, b, 0);
        forall k: nat | 0 < k <= |a| && k < |b| ensures a[..k] != b[..k] {
          assert a[..k][0] == a[0] && b[..k][0] == b[0];
        }
      }
    } else if b != [] {
      assert EarlierAt(a, b, 0);
    }
  }

  lemma EarlierNext(a: seq<Token>, b: seq<Token>, k: nat)
    requires a != [] && b != [] && a[0] == b[0]
    ensures EarlierAt(a, b, k + 1) <==> EarlierAt(a[1..], b[1..], k)
  {
    if k + 1 <= |a| && k + 1 <= |b| {
      assert a[..k + 1] == [a[0]] + a[1..][..k] && b[..k + 1] == [b[0]] + b[1..][..k];
      assert a[..k + 1][1..] == a[1..][..k] && b[..k + 1][1..] == b[1..][..k];
    }
  }

  // ---- ranges and verdicts ----

  /** A given bound can be compared with, and is not violated. */
  ghost predicate Respects(v: seq<Token>, bound: Option<string>, violated: bool) {
    FirstNonEmpty(bound).Some? ==> v != [] && Tokens(bound) != [] && !violated
  }

  /** A version is in a range without an exact version if it respects the bounds that are given, one at least. */
  lemma RangeMeaning(v: seq<Token>, spec: RangeSpec)
    requires AllProper(v) && FirstNonEmpty(spec.exact).None?
    ensures RangeSays(v, spec, Some(true)) <==>
            && (FirstNonEmpty(spec.startIncluding).Some? || FirstNonEmpty(spec.startExcluding).Some? ||
                FirstNonEmpty(spec.endIncluding).Some? || FirstNonEmpty(spec.endExcluding).Some?)
            && Respects(v, spec.startIncluding, Earlier(v, Tokens(spec.startIncluding)))
            && Respects(v, spec.startExcluding, !Earlier(Tokens(spec.startExcluding), v))
            && Respects(v, spec.endIncluding, Earlier(Tokens(spec.endIncluding), v))
            && Respects(v, spec.endExcluding, !Earlier(v, Tokens(spec.endExcluding)))
  {
    var bounds := BoundsOf(spec);
    assert bounds[0] in bounds && bounds[1] in bounds && bounds[2] in bounds && bounds[3] in bounds;
    SatisfiedMeaning(v, bounds[0]);
    SatisfiedMeaning(v, bounds[1]);
    SatisfiedMeaning(v, bounds[2]);
    SatisfiedMeaning(v, bounds[3]);
  }

  lemma SatisfiedMeaning(v: seq<Token>, b: Bound)
    requires AllProper(v)
    ensures Satisfied(v, b) <==> v != [] && Tokens(b.value) != [] &&
                                 match b.clause
                                 case AtLeast => !Earlier(v, Tokens(b.value))
                                 case Above => Earlier(Tokens(b.value), v)
                                 case AtMost => !Earlier(Tokens(b.value), v)
                                 case Below => Earlier(v, Tokens(b.value))
  {
    TokensProper(b.value);
    EarlierExactly(v, Tokens(b.value));
    EarlierExactly(Tokens(b.value), v);
    CompareAntisymmetric(v, Tokens(b.value));
  }

  /** An exact version is met by the versions with the same tokens. */
  lemma ExactMeaning(v: seq<Token>, spec: RangeSpec)
    requires AllProper(v) && FirstNonEmpty(spec.exact).Some?
    ensures RangeSays(v, spec, Some(true)) <==> v == Tokens(spec.exact) != []
    ensures RangeSays(v, spec, Some(false)) <==> v != Tokens(spec.exact) && v != [] && Tokens(spec.exact) != []
  {
    TokensProper(spec.exact);
    CompareAntisymmetric(v, Tokens(spec.exact));
  }

  /** Affected if some range holds the version, or if no range decides and it is earlier than the fixed version. */
  lemma VerdictMeaning(v: seq<Token>, ranges: seq<Option<RangeSpec>>, fixedTokens: seq<Token>)
    requires AllProper(v) && AllProper(fixedTokens)
    ensures var inSome, outOfSome := SomeRange(v, ranges, Some(true)), SomeRange(v, ranges, Some(false));
            var comparable := v != [] && fixedTokens != [];
            && (VerdictOf(v, ranges, fixedTokens) == Support <==>
                  inSome || (!outOfSome && comparable && Earlier(v, fixedTokens)))
            && (VerdictOf(v, ranges, fixedTokens) == Unsure <==> !inSome && !outOfSome && !comparable)
  {
    EarlierExactly(v, fixedTokens);
  }
}
