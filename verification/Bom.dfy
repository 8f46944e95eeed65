/**
 The bill of materials: labelled edges from components to assemblies, from child to parent assemblies
 and from assemblies to products, the variant test on a label, and the grouping of edge lists into
 dictionaries. Quantities are reals.
 */
module Bom {
  import opened Sequences

  type Id = string

  /** The properties every BOM edge carries; an absent or zero quantity counts as one. */
  datatype BomProps = BomProps(quantity: Option<real>, variant: Option<string>) {
    function Quantity(): real {
      match quantity
      case Some(q) => if q == 0.0 then 1.0 else q
      case None => 1.0
    }

    function Variant(): string {
      match variant
      case Some(v) => if v == "" then "all" else v
      case None => "all"
    }
  }

  // `row` is the position of the edge in its payload list: parallel edges are different edges.
  datatype ComponentEdge = ComponentEdge(row: nat, component: Id, assembly: Id, props: BomProps)
  datatype AssemblyEdge = AssemblyEdge(row: nat, child: Id, parent: Id, props: BomProps)
  datatype ProductEdge = ProductEdge(row: nat, assembly: Id, product: Id, props: BomProps)

  datatype Bom = Bom(components: seq<ComponentEdge>, assemblies: seq<AssemblyEdge>, products: seq<ProductEdge>) {
    ghost predicate Numbered() {
      && (forall i :: 0 <= i < |components| ==> components[i].row == i)
      && (forall i :: 0 <= i < |assemblies| ==> assemblies[i].row == i)
      && (forall i :: 0 <= i < |products| ==> products[i].row == i)
    }
  }

  predicate Wildcard(variant: string) {
    variant in {"all", "common", "*"}
  }

  predicate VariantMatches(edgeVariant: string, productVariant: string) {
    Wildcard(edgeVariant) || edgeVariant == productVariant || edgeVariant + "-" <= productVariant
  }

  // ---- what the variant test says of the labels ----

  /** The label cut at every '-'. */
  function Segments(tag: string): (parts: seq<string>)
    ensures parts != []
  {
    if tag == "" then [""]
    else
      var rest := Segments(tag[1..]);
      if tag[0] == '-' then [""] + rest else [[tag[0]] + rest[0]] + rest[1..]
  }

  function Joined(parts: seq<string>): string {
    if parts == [] then "" else if |parts| == 1 then parts[0] else parts[0] + "-" + Joined(parts[1..])
  }

  /** The segments are free of '-', and joined by it they are the label again. */
  lemma {:induction false} SegmentsJoined(tag: string)
    ensures Joined(Segments(tag)) == tag
    ensures forall k :: 0 <= k < |Segments(tag)| ==> '-' !in Segments(tag)[k]
  {
    if tag != "" {
      var parts, rest := Segments(tag), Segments(tag[1..]);
      SegmentsJoined(tag[1..]);
      assert tag == [tag[0]] + tag[1..];
      assert parts[1..] == if tag[0] == '-' then rest else rest[1..];
      forall k | 0 <= k < |parts| ensures '-' !in parts[k] {
        assert k > 0 ==> parts[k] == if tag[0] == '-' then rest[k - 1] else rest[k];
      }
    }
  }

  lemma {:induction false} SegmentPrefix(a: string, b: string)
    ensures Segments(a) <= Segments(b) <==> a == b || a + "-" <= b
    decreases |a|
  {
    if a == "" {
      assert b != "" ==> (a + "-" <= b <==> b[0] == '-');
    } else if b != "" {
      SegmentPrefix(a[1..], b[1..]);
      var s, t := Segments(a[1..]), Segments(b[1..]);
      assert a == [a[0]] + a[1..] && b == [b[0]] + b[1..];
      if a[0] == b[0] {
        PrefixCons(a[0], a[1..], b[1..]);
        SamePrefix(a[0], s, t);
      } else {
        assert !(a + "-" <= b) by {
          assert (a + "-")[0] == a[0];
        }
        assert a[0] != '-' ==> Segments(a)[0][0] == a[0];
        assert b[0] != '-' ==> Segments(b)[0][0] == b[0];
        assert Segments(a)[0] != Segments(b)[0];
      }
    }
  }

  lemma PrefixCons(c: char, a: string, b: string)
    ensures [c] + a + "-" <= [c] + b <==> a + "-" <= b
  {
    assert [c] + a + "-" == [c] + (a + "-");
    if [c] + a + "-" <= [c] + b {
      assert ([c] + b)[1..] == b && ([c] + (a + "-"))[1..] == a + "-";
    }
  }

  lemma SamePrefix(c: char, s: seq<string>, t: seq<string>)
    requires s != [] && t != []
    ensures [""] + s <= [""] + t <==> s <= t
    ensures [[c] + s[0]] + s[1..] <= [[c] + t[0]] + t[1..] <==> s <= t
  {
    assert ([c] + s[0])[1..] == s[0] && ([c] + t[0])[1..] == t[0];
    PrefixHead(s, t);
    PrefixHead([""] + s, [""] + t);
    PrefixHead([[c] + s[0]] + s[1..], [[c] + t[0]] + t[1..]);
  }

  lemma PrefixHead<T>(s: seq<T>, t: seq<T>)
    requires s != [] && t != []
    ensures s <= t <==> s[0] == t[0] && s[1..] <= t[1..]
  {
    assert s == [s[0]] + s[1..] && t == [t[0]] + t[1..];
  }

  /** A label of its own matches exactly the labels whose segments start with its segments. */
  lemma MatchesBySegments(edgeVariant: string, productVariant: string)
    ensures VariantMatches(edgeVariant, productVariant) <==>
            edgeVariant in {"all", "common", "*"} || Segments(edgeVariant) <= Segments(productVariant)
  {
    SegmentPrefix(edgeVariant, productVariant);
  }

  /** The labels that match everything are exactly these three. */
  lemma MatchesAllExactly(edgeVariant: string)
    ensures (forall v :: VariantMatches(edgeVariant, v)) <==> edgeVariant in {"all", "common", "*"}
  {
    if forall v :: VariantMatches(edgeVariant, v) {
      assert VariantMatches(edgeVariant, edgeVariant + "x");
      assert (edgeVariant + "-")[|edgeVariant|] == '-' && (edgeVariant + "x")[|edgeVariant|] == 'x';
    }
  }

  /** An edge without a variant matches whatever the other one is; another label must head its segments. */
  predicate LabelSuits(edge: Option<string>, product: Option<string>) {
    || edge in {None, Some(""), Some("all"), Some("common"), Some("*")}
    || (product !in {None, Some("")} && Segments(edge.value) <= Segments(product.value))
  }

  lemma LabelsMatch(edge: BomProps, product: BomProps)
    ensures VariantMatches(edge.Variant(), product.Variant()) <==> LabelSuits(edge.variant, product.variant)
  {
    MatchesBySegments(edge.Variant(), product.Variant());
    if product.Variant() == "all" && Segments(edge.Variant()) <= Segments("all") {
      SegmentPrefix(edge.Variant(), "all");
      assert (edge.Variant() + "-")[|edge.Variant()|] == '-' && '-' !in "all";
    }
  }

  // ---- grouping edge lists into dictionaries ----

  function KeyIs<E>(key: E -> Id, keep: E -> bool, k: Id): E -> bool {
    e => keep(e) && key(e) == k
  }

  function Bucket<E>(groups: map<Id, seq<E>>, k: Id): seq<E> {
    if k in groups then groups[k] else []
  }

  /** Builds the dictionary of the kept edges by key; every bucket keeps the payload order. */
  method GroupBy<E(!new)>(key: E -> Id, keep: E -> bool, edges: seq<E>) returns (groups: map<Id, seq<E>>)
    ensures forall k :: Bucket(groups, k) == Filter(KeyIs(key, keep, k), edges)
  {
    groups := map[];
    assert edges[..0] == [];
    for n := 0 to |edges|
      invariant forall k :: Bucket(groups, k) == Filter(KeyIs(key, keep, k), edges[..n])
    {
      var e := edges[n];
      assert edges[..n + 1] == edges[..n] + [e];
      forall k
        ensures Filter(KeyIs(key, keep, k), edges[..n + 1]) ==
                Filter(KeyIs(key, keep, k), edges[..n]) + if keep(e) && key(e) == k then [e] else []
      {
        FilterAppend(KeyIs(key, keep, k), edges[..n], [e]);
        assert [e][1..] == [];
      }
      if keep(e) {
        groups := groups[key(e) := Bucket(groups, key(e)) + [e]];
      }
    }
    assert edges[..|edges|] == edges;
  }
}
