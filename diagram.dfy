/**
 * The diagram's data model: a forest of labelled nodes.
 *
 * A node's own fields are an `Info`; its ordered children are the kids of its `Tree`.
 * Optional fields of the JSON records are modelled by their "falsy" value: "" for the
 * strings (id, text, textColor, fontWeight, groupLabel, groupColor) and 0.0 for the
 * manual nudges offsetX and offsetY. The readers in the model treat an absent field as
 * falsy, with one exception: a zone's id is "zone-" followed by the node's id, which the
 * source spells "zone-undefined" for a node without an id and the model "zone-".
 */
module Diagram {
  import opened Trees

  datatype Info = Info(
    id: string,
    text: string,
    color: string,
    textColor: string,
    fontSize: int,
    fontWeight: string,
    groupLabel: string,
    groupColor: string,
    offsetX: real,
    offsetY: real)

  type Node = Tree<Info>

  type Forest = seq<Node>

  /** The ids of a forest in pre-order. */
  function Ids(f: Forest): seq<string> {
    seq(|ValsF(f)|, k requires 0 <= k < |ValsF(f)| => ValsF(f)[k].id)
  }
}
