/**
 * The player script attached to the rolling cluster: it counts the mass and
 * the number of objects absorbed, absorbs every object tagged "Mergeable"
 * it touches, and builds a collision mesh around itself at start-up.
 */
module Player {
  import opened Tree
  import opened Scene
  import Envelope

  /** Tag marking an object the cluster may absorb. */
  const MergeableTag: string := "Mergeable"

  /**
   * A contact reported by the physics engine: the object touched, and the
   * scene nodes carrying the rigidbody and the collider of the contact, when
   * there are any.
   */
  datatype Collision = Collision(gameObject: nat, rigidbody: Option<nat>, collider: Option<nat>)

  class CameraPosition {
    /** The scene the player lives in. */
    const scene: SceneGraph
    /** The node of the player's own transform. */
    const transform: nat
    /** The layer named "Player". */
    const playerLayer: int

    var totalMass: real
    var totalMerges: nat
    var meshVertices: seq<Envelope.Vec3>
    var meshTriangles: seq<int>

    ghost predicate Valid()
      reads this, scene
    {
      scene.Valid() && transform < |scene.parent|
    }

    /** A fresh script: nothing counted yet, no mesh. */
    constructor (scene: SceneGraph, transform: nat, playerLayer: int)
      requires scene.Valid() && transform < |scene.parent|
      ensures Valid()
      ensures this.scene == scene && this.transform == transform && this.playerLayer == playerLayer
      ensures totalMass == 0.0 && totalMerges == 0
      ensures meshVertices == [] && meshTriangles == []
    {
      this.scene, this.transform, this.playerLayer := scene, transform, playerLayer;
      totalMass, totalMerges := 0.0, 0;
      meshVertices, meshTriangles := [], [];
    }

    /**
     * Start-up: the player's own mass is added to the total and the
     * collision mesh is built at the game's resolution; `sample` stands for
     * the ray casts that place each vertex.
     */
    method Start(sample: (nat, nat) -> Envelope.Vec3)
      requires Valid() && scene.rigidbody[transform].Some?
      modifies this
      ensures Valid()
      ensures totalMass == old(totalMass) + scene.rigidbody[transform].value.mass
      ensures totalMerges == old(totalMerges)
      ensures |meshVertices| == Envelope.VertexCount(Envelope.Resolution)
      ensures forall i: nat, j: nat :: i < Envelope.Resolution && j < Envelope.Resolution ==>
                Envelope.VertexIndex(Envelope.Resolution, i, j) < |meshVertices| &&
                meshVertices[Envelope.VertexIndex(Envelope.Resolution, i, j)] == sample(i, j)
      ensures meshTriangles == Envelope.Layout(Envelope.Resolution)
      ensures forall k :: 0 <= k < |meshTriangles| ==> 0 <= meshTriangles[k] < |meshVertices|
    {
      totalMass := totalMass + scene.rigidbody[transform].value.mass;
      var vertices, triangles := Envelope.GenerateCollisionMesh(Envelope.Resolution, sample);
      meshVertices, meshTriangles := vertices[..], triangles[..];
    }

    /**
     * A contact with a Mergeable object absorbs it: the object becomes a
     * child of the player, its rigidbody (if any) turns kinematic and its
     * mass joins the total, its collider (if any) is disabled, the merge
     * count goes up by one, and its whole subtree moves to the player's
     * layer. Any other contact changes nothing. The object may not be the
     * player or one of its ancestors, which would close a cycle.
     */
    method OnCollisionEnter(collision: Collision)
      requires Valid() && collision.gameObject < |scene.parent|
      requires collision.rigidbody.Some? ==>
                 collision.rigidbody.value < |scene.parent| && scene.rigidbody[collision.rigidbody.value].Some?
      requires collision.collider.Some? ==>
                 collision.collider.value < |scene.parent| && scene.collider[collision.collider.value].Some?
      requires scene.tag[collision.gameObject] == MergeableTag ==> !scene.Descends(transform, collision.gameObject)
      modifies this`totalMass, this`totalMerges, scene
      ensures Valid()
      ensures meshVertices == old(meshVertices) && meshTriangles == old(meshTriangles)
      ensures scene.tag == old(scene.tag)
      ensures old(scene.tag[collision.gameObject]) != MergeableTag ==>
                totalMass == old(totalMass) && totalMerges == old(totalMerges) &&
                scene.parent == old(scene.parent) && scene.children == old(scene.children) &&
                scene.layer == old(scene.layer) && scene.rigidbody == old(scene.rigidbody) &&
                scene.collider == old(scene.collider)
      ensures old(scene.tag[collision.gameObject]) == MergeableTag ==>
                var g := collision.gameObject;
                scene.parent == old(scene.parent)[g := transform] &&
                scene.children == Reattached(old(scene.children), old(scene.parent[g]), g, transform) &&
                totalMerges == old(totalMerges) + 1 &&
                (collision.rigidbody.None? ==>
                   totalMass == old(totalMass) && scene.rigidbody == old(scene.rigidbody)) &&
                (collision.rigidbody.Some? ==>
                   var body := old(scene.rigidbody[collision.rigidbody.value].value);
                   totalMass == old(totalMass) + body.mass &&
                   scene.rigidbody == old(scene.rigidbody)[collision.rigidbody.value := Some(Rigidbody(body.mass, true))]) &&
                (collision.collider.None? ==> scene.collider == old(scene.collider)) &&
                (collision.collider.Some? ==>
                   scene.collider == old(scene.collider)[collision.collider.value := Some(Collider(false))]) &&
                |scene.layer| == |old(scene.layer)| &&
                forall x :: 0 <= x < |scene.layer| ==>
                  scene.layer[x] == if old(scene.Descends(x, g)) then playerLayer else old(scene.layer[x])
    {
      var g := collision.gameObject;
      if scene.tag[g] == MergeableTag {
        scene.SetParent(g, transform);
        if collision.rigidbody.Some? {
          var n := collision.rigidbody.value;
          var body := scene.rigidbody[n].value;
          scene.rigidbody := scene.rigidbody[n := Some(body.(isKinematic := true))];
          totalMass := totalMass + body.mass;
        }
        if collision.collider.Some? {
          var n := collision.collider.value;
          scene.collider := scene.collider[n := Some(scene.collider[n].value.(enabled := false))];
        }
        totalMerges := totalMerges + 1;
        scene.SetAllLayers(g, playerLayer);
      }
    }
  }
}
