/**
 * The editor's document state: the forest being edited, the undo history of its
 * snapshots and the index of the snapshot shown.
 *
 * Every structural edit works on a copy of the forest, which becomes the new forest
 * only when the edit found its target; the new forest is then recorded in the history.
 * Copies are values here, so the deep copy the editor makes first is the forest itself.
 * Fresh node ids come from the clock in the editor and are parameters here.
 */
module App {
  import opened Wrappers
  import opened Trees
  import opened Diagram
  import History
  import opened TreeEdits

  const DefaultColor: string := "#F8FAFC"
  const RootColor: string := "#2563EB"

  /** The node `addNode` creates: default fill, size 20, no other fields. */
  function NewNode(id: string): (x: Info)
    ensures x.id == id && x.color == DefaultColor && x.fontSize == 20
  {
    Info(id, "새 노드", DefaultColor, "", 20, "", "", "", 0.0, 0.0)
  }

  /** The root `addRoot` creates: root fill, size 24, bold, no children. */
  function NewRoot(id: string): (x: Info)
    ensures x.id == id && x.color == RootColor && x.fontSize == 24 && x.fontWeight == "bold"
  {
    Info(id, "새 루트", RootColor, "", 24, "bold", "", "", 0.0, 0.0)
  }

  class Editor {
    var data: Forest
    var history: seq<Forest>
    var index: int

    /** The index points at a snapshot and the history holds at most 30 of them. */
    ghost predicate Valid()
      reads this
    {
      History.Bounded(History.Timeline(history, index))
    }

    /** The history as a value. */
    function Timeline(): History.Timeline
      reads this
    {
      History.Timeline(history, index)
    }

    /**
     * The editor shows the saved forest when there is one and the initial forest
     * otherwise, but its history always starts as the one initial snapshot: with a
     * saved forest, the forest shown is not the current snapshot until the first push.
     */
    constructor(saved: Option<Forest>, initial: Forest)
      ensures Valid()
      ensures data == (if saved.Some? then saved.value else initial)
      ensures history == [initial] && index == 0
      ensures saved.None? ==> data == history[index]
    {
      data := if saved.Some? then saved.value else initial;
      history := [initial];
      index := 0;
    }

    /**
     * `pushToHistory`: records `s` unless it equals the current snapshot. A new
     * snapshot becomes the current one with nothing left to redo, and the snapshot
     * that was current is the one just before it.
     */
    method PushToHistory(s: Forest)
      requires Valid()
      modifies this
      ensures Valid()
      ensures Timeline() == History.Push(old(Timeline()), s)
      ensures data == old(data)
      ensures history[index] == s
      ensures s != old(history[index]) ==>
        index == |history| - 1 && index > 0 && history[index - 1] == old(history[index])
    {
      History.PushSpec(Timeline(), s);
      if s == history[index] {
        return;
      }
      var newHistory := history[..index + 1] + [s];
      if |newHistory| > History.Capacity {
        newHistory := newHistory[1..];
      }
      history := newHistory;
      index := |newHistory| - 1;
    }

    /** `undo`: shows the previous snapshot, when there is one. */
    method Undo()
      requires Valid()
      modifies this
      ensures Valid()
      ensures Timeline() == History.Undo(old(Timeline()))
      ensures old(index) > 0 ==> data == history[index]
      ensures old(index) == 0 ==> data == old(data)
    {
      if index > 0 {
        var prevIdx := index - 1;
        index := prevIdx;
        data := history[prevIdx];
      }
    }

    /** `redo`: shows the next snapshot, when there is one. */
    method Redo()
      requires Valid()
      modifies this
      ensures Valid()
      ensures Timeline() == History.Redo(old(Timeline()))
      ensures old(index) < |old(history)| - 1 ==> data == history[index]
      ensures old(index) == |old(history)| - 1 ==> data == old(data)
    {
      if index < |history| - 1 {
        var nextIdx := index + 1;
        index := nextIdx;
        data := history[nextIdx];
      }
    }

    /**
     * `updateNode`: merges the patch into the first node in pre-order with the id and
     * records the result; without such a node nothing changes.
     */
    method UpdateNode(id: string, fields: Patch)
      requires Valid()
      modifies this
      ensures Valid()
      ensures Replaced(old(data), id, fields).None? ==> data == old(data) && Timeline() == old(Timeline())
      ensures Replaced(old(data), id, fields).Some? ==>
        && data == Replaced(old(data), id, fields).value
        && Timeline() == History.Push(old(Timeline()), data)
    {
      var found, newData := FindAndReplace(data, id, fields);
      if found {
        data := newData;
        PushToHistory(newData);
      }
    }

    /**
     * `addNode`: appends a new node with id `newId` to the children of the first node
     * in pre-order with id `parentId` and records the result; without such a node
     * nothing changes.
     */
    method AddNode(parentId: string, newId: string)
      requires Valid()
      modifies this
      ensures Valid()
      ensures Added(old(data), parentId, NewNode(newId)).None? ==> data == old(data) && Timeline() == old(Timeline())
      ensures Added(old(data), parentId, NewNode(newId)).Some? ==>
        && data == Added(old(data), parentId, NewNode(newId)).value
        && Timeline() == History.Push(old(Timeline()), data)
    {
      var newNode := NewNode(newId);
      var found, newData := FindAndAdd(data, parentId, newNode);
      if found {
        data := newData;
        PushToHistory(newData);
      }
    }

    /** `addRoot`: appends a new childless root with id `newId` and records the result. */
    method AddRoot(newId: string)
      requires Valid()
      modifies this
      ensures Valid()
      ensures data == old(data) + [Tree(NewRoot(newId), [])]
      ensures ValsF(data) == ValsF(old(data)) + [NewRoot(newId)]
      ensures Timeline() == History.Push(old(Timeline()), data)
    {
      var newData := data + [Tree(NewRoot(newId), [])];
      ValsFAppend(data, [Tree(NewRoot(newId), [])]);
      ValsFOne(Tree(NewRoot(newId), []));
      data := newData;
      PushToHistory(newData);
    }

    /**
     * `deleteNode`: removes the subtree of a node with the id, looking among the roots
     * before looking below them, and records the result; without such a node nothing
     * changes.
     */
    method DeleteNode(id: string)
      requires Valid()
      modifies this
      ensures Valid()
      ensures Deleted(old(data), id).None? ==> data == old(data) && Timeline() == old(Timeline())
      ensures Deleted(old(data), id).Some? ==>
        && data == Deleted(old(data), id).value
        && Timeline() == History.Push(old(Timeline()), data)
    {
      var found, newData := FindAndDelete(data, id);
      if found {
        data := newData;
        PushToHistory(newData);
      }
    }

    /**
     * `getAllPotentialParents`: the picker entries of every node outside the subtree of
     * the excluded id, in pre-order; none of them has the excluded id, and when no node
     * has it every node is listed.
     */
    method PotentialParents(excludeId: string) returns (list: seq<Choice>)
      ensures list == Choices(ValsF(Pruned(data, excludeId)))
      ensures forall k :: 0 <= k < |list| ==> list[k].id != excludeId
      ensures NoId(ValsF(data), excludeId) ==> list == Choices(ValsF(data))
    {
      list := Traverse(data, excludeId, []);
      PrunedSpec(data, excludeId);
    }
  }
}
