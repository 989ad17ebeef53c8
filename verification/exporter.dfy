/**
 * The export operator: the guard on the active object, the segment pass over
 * the triangulated mesh, and the document the exporter writes.
 *
 * The mesh arrives as plain data: the vertex positions and the face loops the
 * host editor's triangulation produced. The creation timestamp is a parameter.
 */
module Exporter {
  import opened SegmentKeys
  import opened Dedup

  datatype Option<T> = None | Some(value: T)

  /** Vertex positions and the (triangulated) face loops over them. */
  datatype Mesh = Mesh(vertices: seq<Point>, faces: seq<Face>)

  /** The active scene object: its type tag and the mesh it evaluates to. */
  datatype SceneObject = SceneObject(objectType: string, mesh: Mesh)

  datatype Meta = Meta(version: string, createdAt: string, source: string)

  /** The top-level display settings; the nested symmetry block is not modelled. */
  datatype Settings = Settings(
    gridDivisions: int,
    showPoints: bool,
    showLines: bool,
    useCurvedLines: bool,
    useCurvedSurfaces: bool,
    showClosedForms: bool,
    autoCloseFaces: bool,
    useRegularHighlight: bool)

  datatype Document = Document(
    meta: Meta,
    settings: Settings,
    segments: seq<Segment>,
    manualFaces: seq<Face>,
    manualVolumes: seq<Face>,
    hiddenFaces: seq<Face>,
    hiddenVolumes: seq<Face>)

  /** How the operator ends: cancelled with an error report, or finished with the document and the reported count. */
  datatype ExportResult = Cancelled(message: string) | Finished(document: Document, exportedCount: nat)

  const CANCEL_MESSAGE: string := "Select a mesh object to export."
  const VERSION: string := "1.0.0"
  const SOURCE_TAG: string := "blender-exporter-v2"

  /** One grid division; points, lines and closed forms shown; every other option off. */
  function DefaultSettings(): (s: Settings)
    ensures s.gridDivisions == 1
    ensures s.showPoints && s.showLines && s.showClosedForms
    ensures !s.useCurvedLines && !s.useCurvedSurfaces && !s.autoCloseFaces && !s.useRegularHighlight
  {
    Settings(
      gridDivisions := 1,
      showPoints := true,
      showLines := true,
      useCurvedLines := false,
      useCurvedSurfaces := false,
      showClosedForms := true,
      autoCloseFaces := false,
      useRegularHighlight := false)
  }

  /** The export document around a segment list; the other collections stay empty. */
  function AssembleDocument(createdAt: string, segments: seq<Segment>): (d: Document)
    ensures d.segments == segments
    ensures d.meta.version == "1.0.0" && d.meta.createdAt == createdAt && d.meta.source == "blender-exporter-v2"
    ensures d.settings == DefaultSettings()
    ensures d.manualFaces == [] && d.manualVolumes == [] && d.hiddenFaces == [] && d.hiddenVolumes == []
  {
    Document(Meta(VERSION, createdAt, SOURCE_TAG), DefaultSettings(), segments, [], [], [], [])
  }

  /** There is an active object and it is a mesh. */
  predicate IsMeshObject(active: Option<SceneObject>)
    ensures IsMeshObject(active) ==> active.Some?
    ensures active.Some? && active.value.objectType != "MESH" ==> !IsMeshObject(active)
  {
    active.Some? && active.value.objectType == "MESH"
  }

  /**
   * The operator's `execute`: cancels unless the active object is a mesh;
   * otherwise collects the segments and assembles the document.
   */
  method Execute(active: Option<SceneObject>, createdAt: string) returns (result: ExportResult)
    requires IsMeshObject(active) ==>
               FacesInRange(|active.value.mesh.vertices|, active.value.mesh.faces)
    ensures result.Cancelled? <==> !IsMeshObject(active)
    ensures result.Cancelled? ==> result.message == CANCEL_MESSAGE
    ensures result.Finished? ==>
              var mesh, doc := active.value.mesh, result.document;
              && doc.segments == Segments(mesh.vertices, mesh.faces)
              && doc.meta == Meta(VERSION, createdAt, SOURCE_TAG)
              && doc.settings == DefaultSettings()
              && doc.manualFaces == [] && doc.manualVolumes == []
              && doc.hiddenFaces == [] && doc.hiddenVolumes == []
              && result.exportedCount == |doc.segments| == |KeysOf(LoopEdges(mesh.faces))|
              && (forall j :: 0 <= j < |doc.segments| ==> doc.segments[j].origin == "import")
  {
    if active.None? || active.value.objectType != "MESH" {
      return Cancelled(CANCEL_MESSAGE);
    }
    var mesh := active.value.mesh;
    var segments := CollectSegments(mesh.vertices, mesh.faces);
    SegmentsShape(mesh.vertices, mesh.faces);
    var document := AssembleDocument(createdAt, segments);
    result := Finished(document, |segments|);
  }
}
