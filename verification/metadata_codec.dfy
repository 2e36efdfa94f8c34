/**
 * A reader for the metadata text of the enhanced translation prompt. It is the inverse of
 * the rendering in module Translator whenever no id, type, gender, source or target
 * contains one of the characters , . ( ) [ ] that delimit the rendering. The round trip
 * shows that the rendering keeps every node and relationship, in order, with every field
 * intact.
 */
module MetadataCodec {
  import opened Wrappers
  import opened GraphDicts
  import opened Translator

  /** A field the rendering can carry unambiguously. */
  predicate Plain(s: string)
  {
    forall c :: c in s ==> c !in ",.()[]"
  }

  predicate PlainNode(f: NodeFields)
  {
    Plain(f.id) && Plain(f.nodeType) && Plain(f.gender)
  }

  predicate PlainRel(f: RelFields)
  {
    Plain(f.source) && Plain(f.relType) && Plain(f.target)
  }

  /** The position of the first `c` in `s`. */
  function IndexOf(s: string, c: char): (r: Option<nat>)
    ensures r.None? <==> c !in s
    ensures r.Some? ==> r.value < |s| && s[r.value] == c && c !in s[..r.value]
    decreases |s|
  {
    if s == [] then None
    else if s[0] == c then Some(0)
    else
      match IndexOf(s[1..], c)
      case None => None
      case Some(i) =>
        assert s[..i + 1] == [s[0]] + s[1..][..i];
        Some(i + 1)
  }

  lemma IndexOfJoin(a: string, b: string, c: char)
    requires c !in a && b != [] && b[0] == c
    ensures IndexOf(a + b, c) == Some(|a|)
  {
    var s := a + b;
    assert s[|a|] == c;
    assert forall j :: 0 <= j < |a| ==> s[j] == a[j];
    assert forall k :: |a| < k <= |s| ==> s[..k][|a|] == c;
  }

  /** `s` split after its first `c`, into what precedes it and what follows it. */
  function Until(s: string, c: char): (r: (string, string))
    ensures r.0 + r.1 == s && c !in r.0
    ensures r.1 == [] || r.1[0] == c
  {
    match IndexOf(s, c)
    case None => (s, [])
    case Some(i) =>
      assert s[..i] + s[i..] == s;
      (s[..i], s[i..])
  }

  lemma UntilJoin(a: string, b: string, c: char)
    requires c !in a && (b == [] || b[0] == c)
    ensures Until(a + b, c) == (a, b)
  {
    if b == [] {
      assert a + b == a;
    } else {
      IndexOfJoin(a, b, c);
      assert (a + b)[..|a|] == a && (a + b)[|a|..] == b;
    }
  }

  /** `s` without the prefix `p`, if it has it. */
  function DropPrefix(p: string, s: string): (r: Option<string>)
    ensures r.Some? ==> s == p + r.value
  {
    if |p| <= |s| && s[..|p|] == p then
      assert s == s[..|p|] + s[|p|..];
      Some(s[|p|..])
    else None
  }

  lemma DropPrefixJoin(p: string, x: string)
    ensures DropPrefix(p, p + x) == Some(x)
  {
    assert (p + x)[..|p|] == p && (p + x)[|p|..] == x;
  }

  /**
   * `s` read as `a + delim + b`, where `a` is cut off at the first occurrence of the
   * character `delim[k]`.
   */
  function Cut(s: string, delim: string, k: nat): (r: Option<(string, string)>)
    requires k < |delim|
    ensures r.Some? ==> s == r.value.0 + delim + r.value.1
  {
    var (a, rest) := Until(s, delim[k]);
    if rest == [] || |a| < k then None
    else
      var front, back := a[..|a| - k], a[|a| - k..] + rest;
      var after := DropPrefix(delim, back);
      if after.None? then None
      else
        CutShape(s, a, rest, k, delim, after.value);
        Some((front, after.value))
  }

  lemma CutShape(s: string, a: string, rest: string, k: nat, delim: string, after: string)
    requires s == a + rest && k <= |a|
    requires a[|a| - k..] + rest == delim + after
    ensures s == a[..|a| - k] + delim + after
  {
    var front, back := a[..|a| - k], a[|a| - k..];
    assert a == front + back;
    assert s == front + (back + rest);
  }

  lemma CutJoin(a: string, delim: string, k: nat, b: string)
    requires k < |delim| && delim[k] !in a && delim[k] !in delim[..k]
    ensures Cut(a + delim + b, delim, k) == Some((a, b))
  {
    var lead, tail := a + delim[..k], delim[k..] + b;
    assert delim == delim[..k] + delim[k..];
    assert a + delim + b == lead + tail;
    UntilJoin(lead, tail, delim[k]);
    assert lead[..|lead| - k] == a;
    assert lead[|lead| - k..] + tail == delim + b;
    DropPrefixJoin(delim, b);
  }

  // ----- Lists of nodes -----

  lemma JoinFront(parts: seq<string>)
    requires |parts| > 1
    ensures Join(parts) == parts[0] + (Separator + Join(parts[1..]))
  {
  }

  /** One node at the front of `s`, and what follows it. */
  function NodeAt(s: string): (r: Option<(NodeFields, string)>)
    ensures r.Some? ==> |r.value.1| < |s|
  {
    match Cut(s, TypeOpen, 1)
    case None => None
    case Some((id, r1)) =>
      match Cut(r1, GenderOpen, 0)
      case None => None
      case Some((t, r2)) =>
        match Cut(r2, NodeClose, 0)
        case None => None
        case Some((g, rest)) => Some((NodeFields(id, t, g), rest))
  }

  lemma NodeAtRender(f: NodeFields, tail: string)
    requires PlainNode(f)
    ensures NodeAt(RenderNode(f) + tail) == Some((f, tail))
  {
    var r2 := f.gender + NodeClose + tail;
    var r1 := f.nodeType + GenderOpen + r2;
    assert RenderNode(f) + tail == f.id + TypeOpen + r1;
    assert TypeOpen[1] == '(' && TypeOpen[..1] == " ";
    CutJoin(f.id, TypeOpen, 1, r1);
    assert GenderOpen[0] == ',' && GenderOpen[..0] == [];
    CutJoin(f.nodeType, GenderOpen, 0, r2);
    assert NodeClose[0] == ')' && NodeClose[..0] == [];
    CutJoin(f.gender, NodeClose, 0, tail);
  }

  /** A node list joined with separators. */
  function Nodes(s: string): Option<seq<NodeFields>>
    decreases |s|
  {
    if s == [] then Some([])
    else
      match NodeAt(s)
      case None => None
      case Some((f, rest)) =>
        if rest == [] then Some([f])
        else
          match DropPrefix(Separator, rest)
          case None => None
          case Some(more) =>
            match Nodes(more)
            case None => None
            case Some(fs) => Some([f] + fs)
  }

  lemma NodesSingle(f: NodeFields)
    requires PlainNode(f)
    ensures Nodes(RenderNode(f)) == Some([f])
  {
    var r := RenderNode(f);
    assert r + [] == r;
    NodeAtRender(f, []);
    assert |r| >= |TypeOpen| > 0;
  }

  lemma NodesStep(f: NodeFields, more: string)
    requires PlainNode(f) && Nodes(more).Some?
    ensures Nodes(RenderNode(f) + (Separator + more)) == Some([f] + Nodes(more).value)
  {
    NodeAtRender(f, Separator + more);
    DropPrefixJoin(Separator, more);
  }

  lemma {:induction false} NodesRender(fs: seq<NodeFields>)
    requires forall i :: 0 <= i < |fs| ==> PlainNode(fs[i])
    ensures Nodes(Join(RenderNodes(fs))) == Some(fs)
    decreases |fs|
  {
    if |fs| == 1 {
      var parts := RenderNodes(fs);
      assert |parts| == 1 && parts[0] == RenderNode(fs[0]);
      NodesSingle(fs[0]);
      assert [fs[0]] == fs;
    } else if |fs| > 1 {
      assert RenderNodes(fs)[1..] == RenderNodes(fs[1..]);
      JoinFront(RenderNodes(fs));
      NodesRender(fs[1..]);
      NodesStep(fs[0], Join(RenderNodes(fs[1..])));
      assert [fs[0]] + fs[1..] == fs;
    }
  }

  // ----- Lists of relationships -----

  /** One relationship at the front of `s`, and what follows it. */
  function RelAt(s: string): (r: Option<(RelFields, string)>)
    ensures r.Some? ==> |r.value.1| < |s|
  {
    match Cut(s, RelOpen, 3)
    case None => None
    case Some((source, r1)) =>
      match Cut(r1, RelClose, 0)
      case None => None
      case Some((t, r2)) =>
        var (target, rest) := Until(r2, ',');
        Some((RelFields(source, t, target), rest))
  }

  lemma RelAtRender(f: RelFields, tail: string)
    requires PlainRel(f) && (tail == [] || tail[0] == ',')
    ensures RelAt(RenderRel(f) + tail) == Some((f, tail))
  {
    var r2 := f.target + tail;
    var r1 := f.relType + RelClose + r2;
    assert RenderRel(f) + tail == f.source + RelOpen + r1;
    assert RelOpen[3] == '[' && RelOpen[..3] == " --";
    CutJoin(f.source, RelOpen, 3, r1);
    assert RelClose[0] == ']' && RelClose[..0] == [];
    CutJoin(f.relType, RelClose, 0, r2);
    UntilJoin(f.target, tail, ',');
  }

  /** A relationship list joined with separators. */
  function Rels(s: string): Option<seq<RelFields>>
    decreases |s|
  {
    if s == [] then Some([])
    else
      match RelAt(s)
      case None => None
      case Some((f, rest)) =>
        if rest == [] then Some([f])
        else
          match DropPrefix(Separator, rest)
          case None => None
          case Some(more) =>
            match Rels(more)
            case None => None
            case Some(fs) => Some([f] + fs)
  }

  lemma RelsSingle(f: RelFields)
    requires PlainRel(f)
    ensures Rels(RenderRel(f)) == Some([f])
  {
    var r := RenderRel(f);
    assert r + [] == r;
    RelAtRender(f, []);
    assert |r| >= |RelOpen| > 0;
  }

  lemma RelsStep(f: RelFields, more: string)
    requires PlainRel(f) && Rels(more).Some?
    ensures Rels(RenderRel(f) + (Separator + more)) == Some([f] + Rels(more).value)
  {
    RelAtRender(f, Separator + more);
    DropPrefixJoin(Separator, more);
  }

  lemma {:induction false} RelsRender(fs: seq<RelFields>)
    requires forall i :: 0 <= i < |fs| ==> PlainRel(fs[i])
    ensures Rels(Join(RenderRels(fs))) == Some(fs)
    decreases |fs|
  {
    if |fs| == 1 {
      var parts := RenderRels(fs);
      assert |parts| == 1 && parts[0] == RenderRel(fs[0]);
      RelsSingle(fs[0]);
      assert [fs[0]] == fs;
    } else if |fs| > 1 {
      assert RenderRels(fs)[1..] == RenderRels(fs[1..]);
      JoinFront(RenderRels(fs));
      RelsRender(fs[1..]);
      RelsStep(fs[0], Join(RenderRels(fs[1..])));
      assert [fs[0]] + fs[1..] == fs;
    }
  }

  // ----- The whole metadata text -----

  /**
   * The node list and the relationship list of a text made of `head`, the nodes,
   * `middle` (which starts with a full stop) and the relationships, ending in a full stop.
   */
  function DecodeFramed(s: string, head: string, middle: string): Option<(seq<NodeFields>, seq<RelFields>)>
    requires middle != [] && middle[0] == '.'
  {
    var body := DropPrefix(head, s);
    if body.None? then None
    else
      var lists := Cut(body.value, middle, 0);
      if lists.None? then None
      else
        var last := Cut(lists.value.1, ".", 0);
        if last.None? || last.value.1 != [] then None
        else
          var ns := Nodes(lists.value.0);
          var rs := Rels(last.value.0);
          if ns.None? || rs.None? then None else Some((ns.value, rs.value))
  }

  /** The node list and the relationship list of a metadata text. */
  function DecodeMetadata(s: string): Option<(seq<NodeFields>, seq<RelFields>)>
  {
    assert MetadataMiddle[0] == '.';
    DecodeFramed(s, MetadataHead, MetadataMiddle)
  }

  lemma {:induction false} JoinAvoids(parts: seq<string>, c: char)
    requires c !in Separator
    requires forall i :: 0 <= i < |parts| ==> c !in parts[i]
    ensures c !in Join(parts)
    decreases |parts|
  {
    if |parts| > 1 {
      JoinFront(parts);
      JoinAvoids(parts[1..], c);
    }
  }

  /** No rendered list of plain fields contains a full stop. */
  lemma ListsAvoidStop(ns: seq<NodeFields>, rs: seq<RelFields>)
    requires forall i :: 0 <= i < |ns| ==> PlainNode(ns[i])
    requires forall i :: 0 <= i < |rs| ==> PlainRel(rs[i])
    ensures '.' !in Join(RenderNodes(ns)) && '.' !in Join(RenderRels(rs))
  {
    assert '.' !in Separator && '.' !in TypeOpen && '.' !in GenderOpen && '.' !in NodeClose;
    assert '.' !in RelOpen && '.' !in RelClose;
    JoinAvoids(RenderNodes(ns), '.');
    JoinAvoids(RenderRels(rs), '.');
  }

  lemma FramedLayout(head: string, middle: string, nodes: string, rels: string)
    requires middle != [] && middle[0] == '.'
    requires '.' !in nodes && '.' !in rels
    ensures DecodeFramed(head + nodes + middle + rels + ".", head, middle) ==
              if Nodes(nodes).None? || Rels(rels).None? then None
              else Some((Nodes(nodes).value, Rels(rels).value))
  {
    var tail := rels + ".";
    var body := nodes + middle + tail;
    assert head + nodes + middle + rels + "." == head + body;
    DropPrefixJoin(head, body);
    assert middle[..0] == [];
    CutJoin(nodes, middle, 0, tail);
    assert tail == rels + "." + [];
    CutJoin(rels, ".", 0, []);
  }

  /** Reading back the metadata text of plain fields gives the fields, in order. */
  lemma MetadataRoundTrip(ns: seq<NodeFields>, rs: seq<RelFields>)
    requires forall i :: 0 <= i < |ns| ==> PlainNode(ns[i])
    requires forall i :: 0 <= i < |rs| ==> PlainRel(rs[i])
    ensures DecodeMetadata(MetadataText(ns, rs)) == Some((ns, rs))
  {
    ListsAvoidStop(ns, rs);
    assert MetadataMiddle[0] == '.';
    FramedLayout(MetadataHead, MetadataMiddle, Join(RenderNodes(ns)), Join(RenderRels(rs)));
    NodesRender(ns);
    RelsRender(rs);
  }

  /**
   * The metadata of a knowledge graph whose values are plain lists every node and every
   * relationship of it, in order, with the values its rendering read.
   */
  lemma MetadataKeepsEverything(kg: GraphDict)
    requires Metadata(kg).Ok?
    requires forall i :: 0 <= i < |ListOrEmpty(kg.nodes)| ==>
               ReadNodeFields(ListOrEmpty(kg.nodes)[i]).Ok? && PlainNode(ReadNodeFields(ListOrEmpty(kg.nodes)[i]).value)
    requires forall i :: 0 <= i < |ListOrEmpty(kg.relationships)| ==>
               ReadRelFields(ListOrEmpty(kg.relationships)[i]).Ok? &&
               PlainRel(ReadRelFields(ListOrEmpty(kg.relationships)[i]).value)
    ensures var d := DecodeMetadata(Metadata(kg).value);
            && d.Some?
            && |d.value.0| == |ListOrEmpty(kg.nodes)|
            && (forall i :: 0 <= i < |d.value.0| ==> ReadNodeFields(ListOrEmpty(kg.nodes)[i]) == Ok(d.value.0[i]))
            && |d.value.1| == |ListOrEmpty(kg.relationships)|
            && (forall i :: 0 <= i < |d.value.1| ==>
                  ReadRelFields(ListOrEmpty(kg.relationships)[i]) == Ok(d.value.1[i]))
  {
    var ns := ReadAll(ListOrEmpty(kg.nodes), ReadNodeFields).value;
    var rs := ReadAll(ListOrEmpty(kg.relationships), ReadRelFields).value;
    MetadataRoundTrip(ns, rs);
  }
}
