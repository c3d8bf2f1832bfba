/** The scene-graph routines of Utility: recolouring a subtree, moving a subtree
    to one layer, and permuting one node for another. Each one assigns fields of
    nodes in place, node by node, as the engine's objects are updated.

    A subtree is given as the list the engine's GetComponentsInChildren(true)
    returns for its root: the root first, then every descendant, active or not. */
module Utility {
  import opened SceneGraph

  /** The renderer colour a node ends with after ChangeColor: the new colour if
      it has a renderer and its own name is not excluded, its old one otherwise. */
  function Recolored(current: Option<Color>, name: string, color: Color, exception: seq<string>): Option<Color>
  {
    if current.Some? && name !in exception then Some(color) else current
  }

  /** The inner loop of ChangeColor: `pass` stays true unless some entry of
      `exception` equals `name`. */
  method Passes(name: string, exception: seq<string>) returns (pass: bool)
    ensures pass <==> name !in exception
  {
    pass := true;
    for j := 0 to |exception|
      invariant pass <==> name !in exception[..j]
    {
      if name == exception[j] {
        pass := false;
      }
    }
    assert exception[..|exception|] == exception;
  }

  /** ChangeColor(element, color, exception), with `color` already parsed. Every
      node of the subtree, the root and inactive nodes included, whose own name
      is not excluded and which has a renderer gets the colour; exclusion is per
      node, so the children of an excluded node are still recoloured. */
  method ChangeColor(element: GameObject, subtree: seq<GameObject>, color: Color, exception: seq<string>)
    requires |subtree| > 0 && subtree[0] == element
    modifies set t | t in subtree
    ensures forall t :: t in subtree && old(t.renderer).Some? && t.name !in exception ==>
      t.renderer == Some(color)
    ensures forall t :: t in subtree && (old(t.renderer).None? || t.name in exception) ==>
      t.renderer == old(t.renderer)
    ensures forall t :: t in subtree ==>
      && t.name == old(t.name) && t.layer == old(t.layer) && t.activeSelf == old(t.activeSelf)
      && t.position == old(t.position) && t.parent == old(t.parent)
      && t.localRotation == old(t.localRotation) && t.localScale == old(t.localScale)
      && t.destroyed == old(t.destroyed)
  {
    for i := 0 to |subtree|
      invariant forall t :: t in subtree[..i] ==>
        t.renderer == Recolored(old(t.renderer), t.name, color, exception)
      invariant forall t :: t in subtree && t !in subtree[..i] ==> t.renderer == old(t.renderer)
      invariant forall t :: t in subtree ==>
        && t.name == old(t.name) && t.layer == old(t.layer) && t.activeSelf == old(t.activeSelf)
        && t.position == old(t.position) && t.parent == old(t.parent)
        && t.localRotation == old(t.localRotation) && t.localScale == old(t.localScale)
        && t.destroyed == old(t.destroyed)
    {
      var t := subtree[i];
      var pass := Passes(t.name, exception);
      if pass {
        if t.renderer.Some? {
          t.renderer := Some(color);
        }
      }
    }
    assert subtree[..|subtree|] == subtree;
  }

  /** SetLayerRecursively(o, layer): every node of the subtree, `o` and inactive
      nodes included, ends on `layer`; nothing else changes. */
  method SetLayerRecursively(o: GameObject, subtree: seq<GameObject>, layer: Layer)
    requires |subtree| > 0 && subtree[0] == o
    modifies set t | t in subtree
    ensures forall t :: t in subtree ==> t.layer == layer
    ensures forall t :: t in subtree ==>
      && t.name == old(t.name) && t.renderer == old(t.renderer) && t.activeSelf == old(t.activeSelf)
      && t.position == old(t.position) && t.parent == old(t.parent)
      && t.localRotation == old(t.localRotation) && t.localScale == old(t.localScale)
      && t.destroyed == old(t.destroyed)
  {
    for i := 0 to |subtree|
      invariant forall t :: t in subtree[..i] ==> t.layer == layer
      invariant forall t :: t in subtree ==>
        && t.name == old(t.name) && t.renderer == old(t.renderer) && t.activeSelf == old(t.activeSelf)
        && t.position == old(t.position) && t.parent == old(t.parent)
        && t.localRotation == old(t.localRotation) && t.localScale == old(t.localScale)
        && t.destroyed == old(t.destroyed)
    {
      subtree[i].layer := layer;
    }
    assert subtree[..|subtree|] == subtree;
  }

  /** How PermuteGameObject ends: the node that received the source's transform
      state, or the exception it rethrows. */
  datatype PermuteOutcome = Permuted(target: GameObject) | Rethrown

  /** PermuteGameObject(ref sourceObject, newGameObject, instanciate,
      removeSourceGameObject, permuteName, permutePosition, permuteParent).
      The target is `newGameObject`, or a fresh copy of it when `instanciate`.
      Its local rotation and scale always become the source's; its position,
      parent and name become the source's only when the matching flag is set and
      keep their values otherwise; the source is destroyed exactly when
      `removeSourceGameObject`. The flags default as in C#: no copy, and
      everything permuted with the source destroyed. A null source or new object makes the engine
      throw before any field is written; the routine rethrows. */
  method PermuteGameObject(sourceObject: GameObject?, newGameObject: GameObject?, instanciate: bool := false,
                           removeSourceGameObject: bool := true, permuteName: bool := true,
                           permutePosition: bool := true, permuteParent: bool := true)
    returns (outcome: PermuteOutcome)
    modifies sourceObject, newGameObject
    ensures outcome.Rethrown? <==> sourceObject == null || newGameObject == null
    ensures outcome.Rethrown? && sourceObject != null ==> unchanged(sourceObject)
    ensures outcome.Rethrown? && newGameObject != null ==> unchanged(newGameObject)
    ensures outcome.Permuted? ==> sourceObject != null && newGameObject != null
    ensures outcome.Permuted? ==>
      var t := outcome.target;
      && (if instanciate then fresh(t) else t == newGameObject)
      && t.localRotation == old(sourceObject.localRotation)
      && t.localScale == old(sourceObject.localScale)
      && t.position == (if permutePosition then old(sourceObject.position) else old(newGameObject.position))
      && t.parent == (if permuteParent then old(sourceObject.parent)
                      else if instanciate then null else old(newGameObject.parent))
      && t.name == (if permuteName then old(sourceObject.name)
                    else if instanciate then old(newGameObject.name) + CloneSuffix else old(newGameObject.name))
      && t.renderer == old(newGameObject.renderer) && t.layer == old(newGameObject.layer)
      && t.activeSelf == old(newGameObject.activeSelf)
      && (t != sourceObject ==> t.destroyed == (!instanciate && old(newGameObject.destroyed)))
    ensures outcome.Permuted? ==>
      && sourceObject.destroyed == (old(sourceObject.destroyed) || removeSourceGameObject)
      && (outcome.target != sourceObject ==>
            && sourceObject.name == old(sourceObject.name) && sourceObject.renderer == old(sourceObject.renderer)
            && sourceObject.layer == old(sourceObject.layer) && sourceObject.activeSelf == old(sourceObject.activeSelf)
            && sourceObject.position == old(sourceObject.position) && sourceObject.parent == old(sourceObject.parent)
            && sourceObject.localRotation == old(sourceObject.localRotation)
            && sourceObject.localScale == old(sourceObject.localScale))
    ensures outcome.Permuted? && instanciate && newGameObject != sourceObject ==> unchanged(newGameObject)
  {
    var target := newGameObject;
    if instanciate {
      if newGameObject == null {
        return Rethrown;
      }
      target := new GameObject.Instantiate(newGameObject);
    }
    if sourceObject == null || target == null {
      return Rethrown;
    }
    if permutePosition {
      target.position := sourceObject.position;
    }
    if permuteParent {
      target.parent := sourceObject.parent;
    }
    target.localRotation := sourceObject.localRotation;
    target.localScale := sourceObject.localScale;
    if permuteName {
      target.name := sourceObject.name;
    }
    if removeSourceGameObject {
      sourceObject.destroyed := true;
    }
    outcome := Permuted(target);
  }

  /** The common call `PermuteGameObject(ref a, b)` with every flag at its
      default: `b` takes `a`'s position, parent, rotation, scale and name, and
      `a` is destroyed. */
  method PermuteWithDefaults(a: GameObject, b: GameObject) returns (outcome: PermuteOutcome)
    requires a != b
    modifies a, b
    ensures outcome == Permuted(b)
    ensures b.position == old(a.position) && b.parent == old(a.parent) && b.name == old(a.name)
    ensures b.localRotation == old(a.localRotation) && b.localScale == old(a.localScale)
    ensures a.destroyed && b.destroyed == old(b.destroyed)
  {
    outcome := PermuteGameObject(a, b);
  }
}
