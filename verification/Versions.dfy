/**
 Version strings of the KEV triage kit: cut into number and word tokens, compared token by token, tested
 against affected ranges, and judged. The order on token lists is total; a range is convex in it, and a
 verdict does not depend on the order of the ranges.
 */
module Versions {
  import opened Sequences
  import opened Decimals

  // ---- tokens ----

  datatype Token = Num(n: nat) | Word(text: string)

  datatype CharClass = LetterClass | DigitClass | OtherClass

  function ClassOf(c: char): CharClass {
    if 'a' <= c <= 'z' then LetterClass else if IsDigit(c) then DigitClass else OtherClass
  }

  function LowerChar(c: char): char { if 'A' <= c <= 'Z' then (c - 'A') + 'a' else c }

  function Lower(s: string): (t: string)
    ensures |t| == |s| && forall k :: 0 <= k < |s| ==> t[k] == LowerChar(s[k])
  {
    seq(|s|, k requires 0 <= k < |s| => LowerChar(s[k]))
  }

  predicate IsSpace(c: char) { c == ' ' || '\t' <= c <= '\r' }

  function Strip(s: string): string {
    if s != [] && IsSpace(s[0]) then Strip(s[1..])
    else if s != [] && IsSpace(s[|s| - 1]) then Strip(s[..|s| - 1])
    else s
  }

  function FirstNonEmpty(value: Option<string>): Option<string> {
    match value
    case None => None
    case Some(s) => if Strip(s) == "" then None else Some(Strip(s))
  }

  /** How many leading characters are of class c. */
  function Run(s: string, c: CharClass): (n: nat)
    ensures n <= |s| && forall k :: 0 <= k < n ==> ClassOf(s[k]) == c
    ensures n < |s| ==> ClassOf(s[n]) != c
  {
    if s == [] || ClassOf(s[0]) != c then 0 else 1 + Run(s[1..], c)
  }

  /** The maximal runs of letters and of digits, in order. */
  function Parts(s: string): seq<string>
    decreases |s|
  {
    if s == [] then []
    else if ClassOf(s[0]) == OtherClass then Parts(s[1..])
    else
      var n := Run(s, ClassOf(s[0]));
      [s[..n]] + Parts(s[n..])
  }

  predicate IsPart(p: string) { p != [] && (AllDigits(p) || AllLetters(p)) }

  predicate AllLetters(p: string) { forall k :: 0 <= k < |p| ==> ClassOf(p[k]) == LetterClass }

  lemma {:induction false} PartsAreParts(s: string, p: string)
    requires p in Parts(s)
    ensures IsPart(p)
    decreases |s|
  {
    if ClassOf(s[0]) == OtherClass {
      PartsAreParts(s[1..], p);
    } else {
      var n := Run(s, ClassOf(s[0]));
      if p == s[..n] {
        assert forall k :: 0 <= k < n ==> ClassOf(s[k]) == ClassOf(s[0]);
      } else {
        PartsAreParts(s[n..], p);
      }
    }
  }

  function TokenOf(part: string): Token { if AllDigits(part) then Num(ParseNat(part)) else Word(part) }

  function TokensOfParts(parts: seq<string>): (ts: seq<Token>)
    ensures |ts| == |parts| && forall k :: 0 <= k < |parts| ==> ts[k] == TokenOf(parts[k])
  {
    seq(|parts|, k requires 0 <= k < |parts| => TokenOf(parts[k]))
  }

  function Tokens(value: Option<string>): seq<Token> {
    match FirstNonEmpty(value)
    case None => []
    case Some(text) => TokensOfParts(Parts(Lower(text)))
  }

  method TokenizeVersion(value: Option<string>) returns (tokens: seq<Token>)
    ensures tokens == Tokens(value)
  {
    tokens := [];
    var text := FirstNonEmpty(value);
    if text.None? {
      return;
    }
    var parts := Parts(Lower(text.value));
    for k := 0 to |parts|
      invariant tokens == TokensOfParts(parts[..k])
    {
      if AllDigits(parts[k]) {
        tokens := tokens + [Num(ParseNat(parts[k]))];
      } else {
        tokens := tokens + [Word(parts[k])];
      }
    }
    assert parts[..|parts|] == parts;
  }

  /** A word is a nonempty run of lower-case letters. */
  predicate Proper(t: Token) { t.Word? ==> t.text != [] && AllLetters(t.text) }

  ghost predicate AllProper(ts: seq<Token>) { forall k :: 0 <= k < |ts| ==> Proper(ts[k]) }

  lemma TokensProper(value: Option<string>)
    ensures AllProper(Tokens(value))
  {
    var text := FirstNonEmpty(value);
    if text.Some? {
      var parts := Parts(Lower(text.value));
      forall k | 0 <= k < |parts| ensures Proper(TokenOf(parts[k])) {
        PartsAreParts(Lower(text.value), parts[k]);
      }
    }
  }

  // ---- every token list is the tokens of some version text ----

  function TextOf(t: Token): string { match t case Num(n) => PrintNat(n) case Word(w) => w }

  /** The tokens joined by dots. */
  function Show(ts: seq<Token>): string {
    if ts == [] then "" else TextOf(ts[0]) + "." + Show(ts[1..])
  }

  lemma {:induction false} RunExactly(p: string, rest: string, c: CharClass)
    requires forall k :: 0 <= k < |p| ==> ClassOf(p[k]) == c
    requires rest != [] && ClassOf(rest[0]) != c
    ensures Run(p + rest, c) == |p|
  {
    if p == [] {
      assert p + rest == rest;
    } else {
      assert (p + rest)[1..] == p[1..] + rest;
      RunExactly(p[1..], rest, c);
    }
  }

  lemma PartsOfJoined(p: string, rest: string)
    requires IsPart(p)
    ensures Parts(p + "." + rest) == [p] + Parts(rest)
  {
    var s := p + "." + rest;
    var c := ClassOf(p[0]);
    assert forall k :: 0 <= k < |p| ==> ClassOf(p[k]) == c;
    assert s == p + ("." + rest);
    RunExactly(p, "." + rest, c);
    assert s[..|p|] == p && s[|p|..] == "." + rest && ("." + rest)[1..] == rest;
    assert Parts("." + rest) == Parts(rest);
  }

  predicate PlainChar(c: char) { ClassOf(c) != OtherClass || c == '.' }

  lemma {:induction false} ShowPlain(ts: seq<Token>)
    requires AllProper(ts)
    ensures forall k :: 0 <= k < |Show(ts)| ==> PlainChar(Show(ts)[k])
  {
    if ts != [] {
      assert Proper(ts[0]);
      ShowPlain(ts[1..]);
    }
  }

  lemma TokenOfText(t: Token)
    requires Proper(t)
    ensures IsPart(TextOf(t)) && TokenOf(TextOf(t)) == t
  {
    match t
    case Num(n) => PrintParse(n);
    case Word(w) => assert ClassOf(w[0]) == LetterClass;
  }

  lemma PartsOfShowStep(t: Token, rest: seq<Token>)
    requires Proper(t) && TokensOfParts(Parts(Show(rest))) == rest
    ensures TokensOfParts(Parts(TextOf(t) + "." + Show(rest))) == [t] + rest
  {
    TokenOfText(t);
    PartsOfJoined(TextOf(t), Show(rest));
  }

  lemma {:induction false} PartsOfShow(ts: seq<Token>)
    requires AllProper(ts)
    ensures TokensOfParts(Parts(Show(ts))) == ts
  {
    if ts != [] {
      assert Proper(ts[0]);
      PartsOfShow(ts[1..]);
      PartsOfShowStep(ts[0], ts[1..]);
      assert [ts[0]] + ts[1..] == ts;
    }
  }

  /** Printing a token list and tokenizing it again gives the list back. */
  lemma ShowRoundTrip(ts: seq<Token>)
    requires AllProper(ts) && ts != []
    ensures Tokens(Some(Show(ts))) == ts
  {
    var s := Show(ts);
    ShowPlain(ts);
    assert Strip(s) == s;
    assert Lower(s) == s by {
      forall k | 0 <= k < |s| ensures LowerChar(s[k]) == s[k] {
        assert PlainChar(s[k]);
      }
    }
    PartsOfShow(ts);
  }

  // ---- the order ----

  predicate TokenLess(l: Token, r: Token) {
    if l.Num? && r.Num? then l.n < r.n else TextLess(TextOf(l), TextOf(r))
  }

  function CompareTokens(a: seq<Token>, b: seq<Token>): (c: int)
    ensures c in {-1, 0, 1}
  {
    if a == [] && b == [] then 0
    else if a == [] then -1
    else if b == [] then 1
    else if a[0] == b[0] then CompareTokens(a[1..], b[1..])
    else if TokenLess(a[0], b[0]) then -1 else 1
  }

  /** The comparison, which needs tokens on both sides. */
  function CompareLists(a: seq<Token>, b: seq<Token>): Option<int> {
    if a == [] || b == [] then None else Some(CompareTokens(a, b))
  }

  function Compare(left: Option<string>, right: Option<string>): Option<int> {
    CompareLists(Tokens(left), Tokens(right))
  }

  method CompareVersions(left: Option<string>, right: Option<string>) returns (c: Option<int>)
    ensures c == Compare(left, right)
  {
    var a := TokenizeVersion(left);
    var b := TokenizeVersion(right);
    if a == [] || b == [] {
      return None;
    }
    var length := if |a| > |b| then |a| else |b|;
    for i := 0 to length
      invariant i <= |a| && i <= |b|
      invariant CompareTokens(a, b) == CompareTokens(a[i..], b[i..])
    {
      if i >= |a| {
        return Some(-1);
      }
      if i >= |b| {
        return Some(1);
      }
      var l, r := a[i], b[i];
      if l == r {
        assert a[i..][1..] == a[i + 1..] && b[i..][1..] == b[i + 1..];
        continue;
      }
      if l.Num? && r.Num? {
        return Some(if l.n < r.n then -1 else 1);
      }
      return Some(if TextLess(TextOf(l), TextOf(r)) then -1 else 1);
    }
    return Some(0);
  }

  /** A printed number sorts below every lower-case word. */
  lemma NumberBelowWord(l: Token, r: Token)
    requires Proper(l) && Proper(r) && l.Num? && r.Word?
    ensures TokenLess(l, r) && !TokenLess(r, l)
  {
    var s := PrintNat(l.n);
    assert IsDigit(s[0]) && ClassOf(r.text[0]) == LetterClass;
  }

  lemma TokenTrichotomy(l: Token, r: Token)
    requires Proper(l) && Proper(r)
    ensures !(TokenLess(l, r) && TokenLess(r, l))
    ensures TokenLess(l, r) || l == r || TokenLess(r, l)
    ensures !TokenLess(l, l)
  {
    TextLessTrichotomy(TextOf(l), TextOf(r));
    TextLessTrichotomy(TextOf(l), TextOf(l));
    if l.Num? && r.Word? {
      NumberBelowWord(l, r);
    } else if l.Word? && r.Num? {
      NumberBelowWord(r, l);
    }
  }

  lemma TokenTransitive(a: Token, b: Token, c: Token)
    requires Proper(a) && Proper(b) && Proper(c) && TokenLess(a, b) && TokenLess(b, c)
    ensures TokenLess(a, c)
  {
    if a.Num? && c.Word? {
      NumberBelowWord(a, c);
    } else if a.Num? && b.Word? {
      NumberBelowWord(c, b);
    } else if a.Word? && b.Num? {
      NumberBelowWord(b, a);
    } else if b.Word? && c.Num? {
      NumberBelowWord(c, b);
    } else if a.Word? {
      TextLessTransitive(a.text, b.text, c.text);
    }
  }

  /** Antisymmetric, and zero only on equal token lists. */
  lemma {:induction false} CompareAntisymmetric(a: seq<Token>, b: seq<Token>)
    requires AllProper(a) && AllProper(b)
    ensures CompareTokens(a, b) == -CompareTokens(b, a)
    ensures CompareTokens(a, b) == 0 <==> a == b
    decreases |a|
  {
    if a != [] && b != [] {
      assert Proper(a[0]) && Proper(b[0]);
      if a[0] == b[0] {
        CompareAntisymmetric(a[1..], b[1..]);
        assert a == [a[0]] + a[1..] && b == [b[0]] + b[1..];
      } else {
        TokenTrichotomy(a[0], b[0]);
      }
    }
  }

  lemma {:induction false} CompareTransitive(a: seq<Token>, b: seq<Token>, c: seq<Token>)
    requires AllProper(a) && AllProper(b) && AllProper(c)
    requires CompareTokens(a, b) <= 0 && CompareTokens(b, c) <= 0
    ensures CompareTokens(a, c) <= 0
    ensures CompareTokens(a, b) < 0 || CompareTokens(b, c) < 0 ==> CompareTokens(a, c) < 0
    decreases |a|
  {
    if a != [] && b != [] && c != [] {
      assert Proper(a[0]) && Proper(b[0]) && Proper(c[0]);
      TokenTrichotomy(a[0], b[0]);
      TokenTrichotomy(b[0], c[0]);
      if a[0] == b[0] && b[0] == c[0] {
        CompareTransitive(a[1..], b[1..], c[1..]);
      } else if a[0] != b[0] && b[0] != c[0] {
        TokenTransitive(a[0], b[0], c[0]);
        TokenTrichotomy(a[0], c[0]);
      }
    }
  }

  /** Comparable exactly when both have tokens, and then a total order on the token lists. */
  lemma ComparisonIsTotalOrder(a: seq<Token>, b: seq<Token>, c: seq<Token>)
    requires AllProper(a) && AllProper(b) && AllProper(c)
    ensures CompareLists(a, b).Some? <==> a != [] && b != []
    ensures CompareLists(a, b).Some? ==> CompareLists(b, a) == Some(-CompareLists(a, b).value)
    ensures CompareLists(a, b) == Some(0) <==> a == b != []
    ensures CompareLists(a, b).Some? && CompareLists(b, c).Some? && CompareLists(a, b).value <= 0 &&
            CompareLists(b, c).value <= 0 ==>
              CompareLists(a, c).Some? && CompareLists(a, c).value <= 0
  {
    CompareAntisymmetric(a, b);
    if CompareLists(a, b).Some? && CompareLists(b, c).Some? && CompareTokens(a, b) <= 0 && CompareTokens(b, c) <= 0 {
      CompareTransitive(a, b, c);
    }
  }

  // ---- affected ranges ----

  datatype RangeSpec = RangeSpec(exact: Option<string>, startIncluding: Option<string>, startExcluding: Option<string>,
                                 endIncluding: Option<string>, endExcluding: Option<string>)

  datatype Clause = AtLeast | Above | AtMost | Below

  predicate Holds(clause: Clause, c: int) {
    match clause
    case AtLeast => c >= 0
    case Above => c > 0
    case AtMost => c <= 0
    case Below => c < 0
  }

  datatype Bound = Bound(value: Option<string>, clause: Clause)

  function BoundsOf(spec: RangeSpec): seq<Bound> {
    [Bound(spec.startIncluding, AtLeast), Bound(spec.startExcluding, Above), Bound(spec.endIncluding, AtMost),
      Bound(spec.endExcluding, Below)]
  }

  predicate Present(b: Bound) { FirstNonEmpty(b.value).Some? }

  /** How the installed version v compares to a bound. */
  function Against(v: seq<Token>, b: Bound): Option<int> { CompareLists(v, Tokens(b.value)) }

  predicate Satisfied(v: seq<Token>, b: Bound) { Against(v, b).Some? && Holds(b.clause, Against(v, b).value) }

  predicate Violated(v: seq<Token>, b: Bound) { Against(v, b).Some? && !Holds(b.clause, Against(v, b).value) }

  /**
   What a range says of a version: nothing, when the first bound that does not hold cannot be compared or
   when no bound is given; otherwise whether all its bounds hold. An exact version overrides all bounds.
   */
  ghost predicate RangeSays(v: seq<Token>, spec: RangeSpec, verdict: Option<bool>) {
    if FirstNonEmpty(spec.exact).Some? then
      var c := CompareLists(v, Tokens(spec.exact));
      verdict == if c.None? then None else Some(c.value == 0)
    else
      var bounds := BoundsOf(spec);
      match verdict
      case Some(true) => (exists b :: b in bounds && Present(b)) && AllMet(v, bounds)
      case Some(false) => FirstNotMet(v, bounds, true)
      case None => FirstNotMet(v, bounds, false) || forall b :: b in bounds ==> !Present(b)
  }

  /** Some given bound is not met, all given bounds before it are, and it is (or is not) comparable. */
  ghost predicate FirstNotMet(v: seq<Token>, bounds: seq<Bound>, comparable: bool) {
    exists k :: FirstAt(v, bounds, k, comparable)
  }

  ghost predicate FirstAt(v: seq<Token>, bounds: seq<Bound>, k: int, comparable: bool) {
    0 <= k < |bounds| && Present(bounds[k]) && NotMet(v, bounds[k], comparable) && AllMet(v, bounds[..k])
  }

  predicate NotMet(v: seq<Token>, b: Bound, comparable: bool) {
    if comparable then Violated(v, b) else Against(v, b).None?
  }

  ghost predicate AllMet(v: seq<Token>, bounds: seq<Bound>) {
    forall b :: b in bounds && Present(b) ==> Satisfied(v, b)
  }

  lemma StrippedAlike(value: Option<string>)
    requires FirstNonEmpty(value).Some?
    ensures Tokens(FirstNonEmpty(value)) == Tokens(value)
  {
    StripIdempotent(value.value);
  }

  lemma {:induction false} StripIdempotent(s: string)
    ensures Strip(Strip(s)) == Strip(s)
    decreases |s|
  {
    if s != [] && IsSpace(s[0]) {
      StripIdempotent(s[1..]);
    } else if s != [] && IsSpace(s[|s| - 1]) {
      StripIdempotent(s[..|s| - 1]);
    }
  }

  method VersionInRange(installed: string, spec: RangeSpec) returns (verdict: Option<bool>)
    ensures RangeSays(Tokens(Some(installed)), spec, verdict)
  {
    ghost var v := Tokens(Some(installed));
    var exact := FirstNonEmpty(spec.exact);
    if exact.Some? {
      StrippedAlike(spec.exact);
      var c := CompareVersions(Some(installed), exact);
      return if c.None? then None else Some(c.value == 0);
    }
    var comparable := false;
    var bounds := BoundsOf(spec);
    for k := 0 to |bounds|
      invariant AllMet(v, bounds[..k])
      invariant comparable <==> exists b :: b in bounds[..k] && Present(b)
    {
      assert bounds[..k + 1] == bounds[..k] + [bounds[k]];
      assert bounds[k] in bounds[..k + 1];
      var bound := FirstNonEmpty(bounds[k].value);
      if bound.None? {
        continue;
      }
      StrippedAlike(bounds[k].value);
      var c := CompareVersions(Some(installed), bound);
      if c.None? {
        assert FirstAt(v, bounds, k, false);
        return None;
      }
      comparable := true;
      if !Holds(bounds[k].clause, c.value) {
        assert FirstAt(v, bounds, k, true);
        return Some(false);
      }
    }
    assert bounds[..|bounds|] == bounds;
    return if comparable then Some(true) else None;
  }

  /** The specification of a range leaves no choice. */
  lemma RangeSaysOne(v: seq<Token>, spec: RangeSpec, x: Option<bool>, y: Option<bool>)
    requires RangeSays(v, spec, x) && RangeSays(v, spec, y)
    ensures x == y
  {
    if FirstNonEmpty(spec.exact).None? {
      var bounds := BoundsOf(spec);
      forall i: nat, c, j: nat, d ensures FirstAt(v, bounds, i, c) && FirstAt(v, bounds, j, d) ==> i == j {}
      forall c | FirstNotMet(v, bounds, c) ensures !AllMet(v, bounds) && exists b :: b in bounds && Present(b) {
        var k :| FirstAt(v, bounds, k, c);
        assert bounds[k] in bounds && !Satisfied(v, bounds[k]);
      }
    }
  }

  /** An affected range is convex: between two versions in range, every version is in range. */
  lemma RangeConvex(spec: RangeSpec, low: seq<Token>, mid: seq<Token>, high: seq<Token>)
    requires AllProper(low) && AllProper(mid) && AllProper(high)
    requires CompareTokens(low, mid) <= 0 && CompareTokens(mid, high) <= 0
    requires RangeSays(low, spec, Some(true)) && RangeSays(high, spec, Some(true))
    ensures RangeSays(mid, spec, Some(true))
  {
    if FirstNonEmpty(spec.exact).Some? {
      TokensProper(spec.exact);
      CompareBetween(low, mid, high, Tokens(spec.exact));
    } else {
      forall b | b in BoundsOf(spec) && Present(b) ensures Satisfied(mid, b) {
        TokensProper(b.value);
        CompareBetween(low, mid, high, Tokens(b.value));
      }
    }
  }

  /** Comparing to a fixed version is monotone. */
  lemma CompareBetween(low: seq<Token>, mid: seq<Token>, high: seq<Token>, b: seq<Token>)
    requires AllProper(low) && AllProper(mid) && AllProper(high) && AllProper(b)
    requires CompareTokens(low, mid) <= 0 && CompareTokens(mid, high) <= 0
    ensures CompareTokens(low, b) <= CompareTokens(mid, b) <= CompareTokens(high, b)
  {
    CompareMonotone(low, mid, b);
    CompareMonotone(mid, high, b);
  }

  lemma CompareMonotone(x: seq<Token>, y: seq<Token>, b: seq<Token>)
    requires AllProper(x) && AllProper(y) && AllProper(b) && CompareTokens(x, y) <= 0
    ensures CompareTokens(x, b) <= CompareTokens(y, b)
  {
    CompareAntisymmetric(x, b);
    CompareAntisymmetric(y, b);
    CompareAntisymmetric(x, y);
    if CompareTokens(y, b) <= 0 {
      CompareTransitive(x, y, b);
    }
  }

  // ---- the verdict ----

  datatype Verdict = Support | Contradict | Unsure

  ghost predicate SomeRange(v: seq<Token>, ranges: seq<Option<RangeSpec>>, says: Option<bool>) {
    exists r :: r in ranges && r.Some? && RangeSays(v, r.value, says)
  }

  /**
   Support if some range holds the version, else contradict if some range was comparable, else by the fixed
   version.
   */
  ghost function VerdictOf(v: seq<Token>, ranges: seq<Option<RangeSpec>>, fixedTokens: seq<Token>): Verdict {
    if SomeRange(v, ranges, Some(true)) then Support
    else if SomeRange(v, ranges, Some(false)) then Contradict
    else
      match CompareLists(v, fixedTokens)
      case None => Unsure
      case Some(c) => if c < 0 then Support else Contradict
  }

  method AssessVersionMembership(installed: string, ranges: seq<Option<RangeSpec>>, fixedVersion: Option<string>)
    returns (verdict: Verdict)
    ensures verdict == if installed == "" then Unsure
            else VerdictOf(Tokens(Some(installed)), ranges, Tokens(fixedVersion))
  {
    if installed == "" {
      return Unsure;
    }
    ghost var v := Tokens(Some(installed));
    var comparableSeen := false;
    for k := 0 to |ranges|
      invariant !SomeRange(v, ranges[..k], Some(true))
      invariant comparableSeen <==> SomeRange(v, ranges[..k], Some(false))
    {
      assert ranges[..k + 1] == ranges[..k] + [ranges[k]];
      if ranges[k].None? {
        continue;
      }
      var membership := VersionInRange(installed, ranges[k].value);
      forall x | RangeSays(v, ranges[k].value, x) ensures x == membership {
        RangeSaysOne(v, ranges[k].value, x, membership);
      }
      if membership.None? {
        continue;
      }
      comparableSeen := true;
      if membership.value {
        assert ranges[k] in ranges;
        return Support;
      }
      assert ranges[k] in ranges[..k + 1];
    }
    assert ranges[..|ranges|] == ranges;
    var fixed := FirstNonEmpty(fixedVersion);
    var comparison: Option<int> := None;
    if fixed.Some? {
      StrippedAlike(fixedVersion);
      comparison := CompareVersions(Some(installed), fixed);
    }
    if comparableSeen {
      return Contradict;
    }
    if fixed.Some? && comparison.Some? {
      return if comparison.value < 0 then Support else Contradict;
    }
    return Unsure;
  }

  /** The verdict does not depend on the order in which the ranges are listed. */
  lemma VerdictIgnoresOrder(v: seq<Token>, ranges: seq<Option<RangeSpec>>, shuffled: seq<Option<RangeSpec>>,
                            fixedTokens: seq<Token>)
    requires multiset(ranges) == multiset(shuffled)
    ensures VerdictOf(v, ranges, fixedTokens) == VerdictOf(v, shuffled, fixedTokens)
  {
    MultisetMembers(ranges, shuffled);
    forall says ensures SomeRange(v, ranges, says) <==> SomeRange(v, shuffled, says) {}
  }
}
