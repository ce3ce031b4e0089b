/**
 * The scene graph as the tool sees it: an immutable tree of named nodes.
 * Centres and bounding boxes are computed by the host application and are
 * carried here as plain inputs.
 */
module SceneTree {

  datatype Vec3 = Vec3(x: real, y: real, z: real)

  /** An axis-aligned box in the host's 6-float layout (mins first, then maxs). */
  datatype Box = Box(xmin: real, ymin: real, zmin: real, xmax: real, ymax: real, zmax: real)
  {
    /** Component `i` of the 6-float list returned by `getBoundingBox()`. */
    function At(i: nat): real
      requires i < 6
    {
      match i
      case 0 => xmin
      case 1 => ymin
      case 2 => zmin
      case 3 => xmax
      case 4 => ymax
      case _ => zmax
    }
  }

  /** A node is either a geometry node or any other (group/transform) node. */
  datatype Kind = Geometry | Container

  /** Materials are identified by their name. */
  type Material = string

  /**
   * A scene node. Geometry nodes may have children of their own (the
   * surfaces of a shell, or the pieces a tessellation produced).
   */
  datatype Node = Node(
    name: string,
    kind: Kind,
    center: Vec3,
    box: Box,
    material: Material,
    primitiveCount: int,
    children: seq<Node>)
  {
    predicate IsGeo() { kind == Geometry }
  }
}
