/**
 * EnhancedTranslator (utils/translator.py): the prompt texts sent to the chat-completion
 * service, the knowledge-graph metadata embedded in the enhanced prompt, and the error
 * strings both translation methods return instead of raising.
 *
 * The service is a parameter `complete`: given the messages it yields the reply content,
 * or the text of the exception it raised.
 */
module Translator {
  import opened Wrappers
  import opened GraphDicts

  datatype Message = Message(role: string, content: string)

  /** The three values a node's rendering reads, in the order the f-string reads them. */
  datatype NodeFields = NodeFields(id: string, nodeType: string, gender: string)

  /** The three values a relationship's rendering reads, in the order the f-string reads them. */
  datatype RelFields = RelFields(source: string, relType: string, target: string)

  /** A node's id, type and gender: each key is required, the first absent one raises. */
  function ReadNodeFields(n: NodeRecord): (r: Result<NodeFields, string>)
    ensures r.Ok? <==> n.id.Some? && n.nodeType.Some? && n.gender.Some?
    ensures r.Ok? ==> r.value == NodeFields(n.id.value, n.nodeType.value, n.gender.value)
    ensures n.id.None? ==> r == Err(KeyError("id"))
    ensures n.id.Some? && n.nodeType.None? ==> r == Err(KeyError("type"))
    ensures n.id.Some? && n.nodeType.Some? && n.gender.None? ==> r == Err(KeyError("gender"))
  {
    match (n.id, n.nodeType, n.gender)
    case (None, _, _) => Err(KeyError("id"))
    case (_, None, _) => Err(KeyError("type"))
    case (_, _, None) => Err(KeyError("gender"))
    case (Some(id), Some(t), Some(g)) => Ok(NodeFields(id, t, g))
  }

  /** A relationship's source, type and target: each key is required, the first absent one raises. */
  function ReadRelFields(r: RelRecord): (x: Result<RelFields, string>)
    ensures x.Ok? <==> r.source.Some? && r.relType.Some? && r.target.Some?
    ensures x.Ok? ==> x.value == RelFields(r.source.value, r.relType.value, r.target.value)
    ensures r.source.None? ==> x == Err(KeyError("source"))
    ensures r.source.Some? && r.relType.None? ==> x == Err(KeyError("type"))
    ensures r.source.Some? && r.relType.Some? && r.target.None? ==> x == Err(KeyError("target"))
  {
    match (r.source, r.relType, r.target)
    case (None, _, _) => Err(KeyError("source"))
    case (_, None, _) => Err(KeyError("type"))
    case (_, _, None) => Err(KeyError("target"))
    case (Some(s), Some(t), Some(d)) => Ok(RelFields(s, t, d))
  }

  // The fixed pieces of the two item formats and of the list separator.
  const TypeOpen := " (Type: "
  const GenderOpen := ", Gender: "
  const NodeClose := ")"
  const RelOpen := " --["
  const RelClose := "]--> "
  const Separator := ", "

  /** A node as `id (Type: type, Gender: gender)`. */
  function RenderNode(f: NodeFields): (r: string)
    ensures |r| == |f.id| + |TypeOpen| + |f.nodeType| + |GenderOpen| + |f.gender| + 1
    ensures r[..|f.id|] == f.id && r[|r| - |f.gender| - 1..] == f.gender + NodeClose
  {
    f.id + TypeOpen + f.nodeType + GenderOpen + f.gender + NodeClose
  }

  /** A relationship as `source --[type]--> target`. */
  function RenderRel(f: RelFields): (r: string)
    ensures |r| == |f.source| + |RelOpen| + |f.relType| + |RelClose| + |f.target|
    ensures r[..|f.source|] == f.source && r[|r| - |f.target|..] == f.target
  {
    f.source + RelOpen + f.relType + RelClose + f.target
  }

  /** The parts joined with `", "` between neighbours, as `str.join` does. */
  function Join(parts: seq<string>): (r: string)
    ensures parts == [] ==> r == ""
    ensures |parts| == 1 ==> r == parts[0]
    decreases |parts|
  {
    if parts == [] then ""
    else if |parts| == 1 then parts[0]
    else parts[0] + Separator + Join(parts[1..])
  }

  function RenderNodes(fs: seq<NodeFields>): (r: seq<string>)
    ensures |r| == |fs| && forall i :: 0 <= i < |fs| ==> r[i] == RenderNode(fs[i])
  {
    seq(|fs|, i requires 0 <= i < |fs| => RenderNode(fs[i]))
  }

  function RenderRels(fs: seq<RelFields>): (r: seq<string>)
    ensures |r| == |fs| && forall i :: 0 <= i < |fs| ==> r[i] == RenderRel(fs[i])
  {
    seq(|fs|, i requires 0 <= i < |fs| => RenderRel(fs[i]))
  }

  const MetadataHead := "Knowledge Graph Structure: Nodes: "
  const MetadataMiddle := ". Relationships: "

  /** The metadata text: the node list and the relationship list between fixed headings, ending in a full stop. */
  function MetadataText(ns: seq<NodeFields>, rs: seq<RelFields>): (r: string)
    ensures |r| > |MetadataHead| && r[..|MetadataHead|] == MetadataHead && r[|r| - 1] == '.'
  {
    MetadataHead + Join(RenderNodes(ns)) + MetadataMiddle + Join(RenderRels(rs)) + "."
  }

  /** A list entry of the graph, or the empty list when its key is absent. */
  function ListOrEmpty<T>(o: Option<seq<T>>): (r: seq<T>)
    ensures o.None? ==> r == []
    ensures o.Some? ==> r == o.value
  {
    match o
    case None => []
    case Some(xs) => xs
  }

  /**
   * The metadata of the enhanced prompt: the nodes are rendered first, then the
   * relationships; the first absent key raises and ends the rendering.
   */
  function Metadata(kg: GraphDict): (r: Result<string, string>)
    ensures r.Ok? <==>
              && (forall i :: 0 <= i < |ListOrEmpty(kg.nodes)| ==> ReadNodeFields(ListOrEmpty(kg.nodes)[i]).Ok?)
              && (forall i :: 0 <= i < |ListOrEmpty(kg.relationships)| ==>
                    ReadRelFields(ListOrEmpty(kg.relationships)[i]).Ok?)
  {
    match ReadAll(ListOrEmpty(kg.nodes), ReadNodeFields)
    case Err(e) => Err(e)
    case Ok(ns) =>
      match ReadAll(ListOrEmpty(kg.relationships), ReadRelFields)
      case Err(e) => Err(e)
      case Ok(rs) => Ok(MetadataText(ns, rs))
  }

  /** The content of `get_standard_translation`'s single message. */
  function StandardContent(text: string, targetLanguage: string): (r: string)
    ensures |r| >= |text| && r[|r| - |text|..] == text
  {
    "Translate this in " + targetLanguage + " and send only the " + targetLanguage + " translated part: " + text
  }

  const EnhancedInstruction :=
    " (Devanagari) using only the gender and relationship context of entities from metadata; reply with only the "

  /** The content of `get_enhanced_translation`'s single message. */
  function EnhancedContent(text: string, metadata: string, targetLanguage: string): (r: string)
    ensures var tail := "Meta data: " + metadata + " ";
            |r| >= |tail| && r[|r| - |tail|..] == tail
  {
    "Translate to " + targetLanguage + EnhancedInstruction + targetLanguage + " text: " + text + " "
      + "Meta data: " + metadata + " "
  }

  /**
   * The standard translation never raises: it sends one user message with the standard
   * prompt and returns the reply, or "Translation error: " and the service's message.
   */
  function StandardTranslation(text: string, targetLanguage: string,
                               complete: seq<Message> -> Result<string, string>): (r: string)
    ensures var answer := complete([Message("user", StandardContent(text, targetLanguage))]);
            && (answer.Ok? ==> r == answer.value)
            && (answer.Err? ==> r == "Translation error: " + answer.error)
  {
    match complete([Message("user", StandardContent(text, targetLanguage))])
    case Ok(reply) => reply
    case Err(e) => "Translation error: " + e
  }

  /**
   * The enhanced translation never raises: it renders the metadata, then sends one user
   * message with the enhanced prompt, and returns the reply, or "Enhanced translation
   * error: " and the message of whichever step failed first.
   */
  function EnhancedTranslation(text: string, kg: GraphDict, targetLanguage: string,
                               complete: seq<Message> -> Result<string, string>): (r: string)
    ensures Metadata(kg).Err? ==> r == "Enhanced translation error: " + Metadata(kg).error
    ensures Metadata(kg).Ok? ==>
              var answer := complete([Message("user", EnhancedContent(text, Metadata(kg).value, targetLanguage))]);
              && (answer.Ok? ==> r == answer.value)
              && (answer.Err? ==> r == "Enhanced translation error: " + answer.error)
  {
    match Metadata(kg)
    case Err(e) => "Enhanced translation error: " + e
    case Ok(metadata) =>
      match complete([Message("user", EnhancedContent(text, metadata, targetLanguage))])
      case Ok(reply) => reply
      case Err(e) => "Enhanced translation error: " + e
  }

  // ----- What the translation methods promise -----

  /**
   * The translations consult the service about one message only: two services that give
   * the same answer to it give the same translation, and when the metadata cannot be
   * rendered the service is not consulted at all.
   */
  lemma TranslationsAskOnce(text: string, kg: GraphDict, targetLanguage: string,
                            complete: seq<Message> -> Result<string, string>,
                            other: seq<Message> -> Result<string, string>)
    ensures var sent := [Message("user", StandardContent(text, targetLanguage))];
            complete(sent) == other(sent) ==>
              StandardTranslation(text, targetLanguage, complete) == StandardTranslation(text, targetLanguage, other)
    ensures Metadata(kg).Err? ==>
              EnhancedTranslation(text, kg, targetLanguage, complete) == EnhancedTranslation(text, kg, targetLanguage, other)
    ensures Metadata(kg).Ok? ==>
              var sent := [Message("user", EnhancedContent(text, Metadata(kg).value, targetLanguage))];
              complete(sent) == other(sent) ==>
                EnhancedTranslation(text, kg, targetLanguage, complete) == EnhancedTranslation(text, kg, targetLanguage, other)
  {
  }

  /**
   * When the nodes before the i-th are complete and the i-th has an id and a type but
   * no gender, the enhanced translation is "Enhanced translation error: 'gender'".
   */
  lemma MissingGenderMessage(text: string, kg: GraphDict, targetLanguage: string,
                             complete: seq<Message> -> Result<string, string>, i: nat)
    requires kg.nodes.Some? && i < |kg.nodes.value|
    requires forall j :: 0 <= j < i ==> ReadNodeFields(kg.nodes.value[j]).Ok?
    requires kg.nodes.value[i].id.Some? && kg.nodes.value[i].nodeType.Some? && kg.nodes.value[i].gender.None?
    ensures EnhancedTranslation(text, kg, targetLanguage, complete) == "Enhanced translation error: 'gender'"
  {
    ReadAllStops(kg.nodes.value, ReadNodeFields, i);
    KeyErrorOfPlain("gender");
  }

  /**
   * The metadata error is the KeyError of the first node that lacks a key or, when every
   * node is complete, of the first relationship that lacks one.
   */
  lemma MetadataErrorIsFirstMissingKey(kg: GraphDict)
    requires Metadata(kg).Err?
    ensures var ns, rs := ListOrEmpty(kg.nodes), ListOrEmpty(kg.relationships);
            || (exists i :: 0 <= i < |ns| && ReadNodeFields(ns[i]) == Err(Metadata(kg).error) &&
                             forall j :: 0 <= j < i ==> ReadNodeFields(ns[j]).Ok?)
            || ((forall i :: 0 <= i < |ns| ==> ReadNodeFields(ns[i]).Ok?) &&
                exists i :: 0 <= i < |rs| && ReadRelFields(rs[i]) == Err(Metadata(kg).error) &&
                            forall j :: 0 <= j < i ==> ReadRelFields(rs[j]).Ok?)
  {
    var ns, rs := ListOrEmpty(kg.nodes), ListOrEmpty(kg.relationships);
    if ReadAll(ns, ReadNodeFields).Err? {
      ReadAllError(ns, ReadNodeFields);
    } else {
      ReadAllError(rs, ReadRelFields);
    }
  }

  /** An absent 'nodes' or 'relationships' key renders like an empty list. */
  lemma AbsentListsAreEmpty(kg: GraphDict)
    ensures Metadata(GraphDict(None, kg.relationships)) == Metadata(GraphDict(Some([]), kg.relationships))
    ensures Metadata(GraphDict(kg.nodes, None)) == Metadata(GraphDict(kg.nodes, Some([])))
    ensures Metadata(GraphDict(None, None)) == Ok("Knowledge Graph Structure: Nodes: . Relationships: .")
  {
    assert MetadataText([], []) == "Knowledge Graph Structure: Nodes: . Relationships: .";
  }

  /**
   * The enhanced prompt names the target language first, then holds the text, and ends
   * with "Meta data: ", the metadata and a space; text and metadata can be read back.
   */
  lemma EnhancedContentLayout(text: string, metadata: string, targetLanguage: string)
    ensures var c := EnhancedContent(text, metadata, targetLanguage);
            var tail := "Meta data: " + metadata + " ";
            && |c| >= 13 + |targetLanguage| + |text| + 1 + |tail|
            && c[13..13 + |targetLanguage|] == targetLanguage
            && c[|c| - |tail| - |text| - 1..|c| - |tail| - 1] == text
            && c[|c| - |tail|..] == tail
  {
    var c := EnhancedContent(text, metadata, targetLanguage);
    var head := "Translate to " + targetLanguage + EnhancedInstruction + targetLanguage + " text: ";
    var tail := "Meta data: " + metadata + " ";
    assert c == head + text + " " + tail;
    assert c[13..13 + |targetLanguage|] == head[13..13 + |targetLanguage|];
  }

  /** The standard prompt names the target language first and ends with the text. */
  lemma StandardContentLayout(text: string, targetLanguage: string)
    ensures var c := StandardContent(text, targetLanguage);
            && |c| >= 18 + |targetLanguage| + |text|
            && c[18..18 + |targetLanguage|] == targetLanguage
            && c[|c| - |text|..] == text
  {
    var c := StandardContent(text, targetLanguage);
    var head := "Translate this in " + targetLanguage + " and send only the " + targetLanguage + " translated part: ";
    assert c == head + text;
    assert c[18..18 + |targetLanguage|] == head[18..18 + |targetLanguage|];
  }

}
