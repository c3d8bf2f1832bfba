/** The part of the engine's scene graph that Utility reads and writes: a node
    (GameObject with its Transform and optional Renderer) whose fields the
    utility routines assign in place. Colours, vectors and rotations are only
    ever copied, so their components are carried but never computed with. */
module SceneGraph {

  datatype Option<T> = None | Some(value: T)

  /** An RGBA colour. */
  datatype Color = Color(r: real, g: real, b: real, a: real)

  datatype Vector3 = Vector3(x: real, y: real, z: real)

  datatype Quaternion = Quaternion(x: real, y: real, z: real, w: real)

  /** A layer index; the engine has 32 layers. */
  type Layer = l: int | 0 <= l < 32

  /** The suffix the engine appends to the name of an instantiated copy. */
  const CloneSuffix: string := "(Clone)"

  /** A scene node. `renderer` is the colour of the node's Renderer material, or
      None when the node has no Renderer; `position` is the world position and
      the other transform fields are relative to `parent`. `destroyed` records
      that the node was handed to Destroy. */
  class GameObject {
    var name: string
    var renderer: Option<Color>
    var layer: Layer
    var activeSelf: bool
    var position: Vector3
    var parent: GameObject?
    var localRotation: Quaternion
    var localScale: Vector3
    var destroyed: bool

    constructor (name: string, renderer: Option<Color>, layer: Layer, activeSelf: bool,
                 position: Vector3, parent: GameObject?, localRotation: Quaternion, localScale: Vector3)
      ensures this.name == name && this.renderer == renderer && this.layer == layer
      ensures this.activeSelf == activeSelf && this.position == position && this.parent == parent
      ensures this.localRotation == localRotation && this.localScale == localScale
      ensures !destroyed
    {
      this.name := name;
      this.renderer := renderer;
      this.layer := layer;
      this.activeSelf := activeSelf;
      this.position := position;
      this.parent := parent;
      this.localRotation := localRotation;
      this.localScale := localScale;
      destroyed := false;
    }

    /** Instantiate(original): a new root-level node at the original's world
        position, named after the original with the clone suffix. */
    constructor Instantiate(original: GameObject)
      ensures name == original.name + CloneSuffix
      ensures renderer == original.renderer && layer == original.layer
      ensures activeSelf == original.activeSelf && position == original.position
      ensures parent == null
      ensures localRotation == original.localRotation && localScale == original.localScale
      ensures !destroyed
    {
      name := original.name + CloneSuffix;
      renderer := original.renderer;
      layer := original.layer;
      activeSelf := original.activeSelf;
      position := original.position;
      parent := null;
      localRotation := original.localRotation;
      localScale := original.localScale;
      destroyed := false;
    }
  }
}
