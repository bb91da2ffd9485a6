/** divide_vertices_into_meshlets and divide_into_meshlets: the drivers that
    fetch each model's (or each submesh's) geometry, hand it to a pluggable
    partitioner, stamp the owning model onto the results and collect them. The
    partitioner and the model's geometry accessors are parameters; nothing is
    assumed about them beyond their signatures. */
module Division {
  import opened Wrappers
  import opened Seqs
  import opened Meshlets

  /** One element of aModels: a model and the mesh indices selected from it. */
  datatype ModelSelection = ModelSelection(model: ModelHandle, meshIndices: seq<MeshIndex>)

  /** The geometry one division call works on: either all selected submeshes
      of a model combined into one vertex/index buffer (get_vertices_and_indices),
      or a single submesh (positions_for_mesh and indices_for_mesh). */
  datatype Request =
    | Combined(model: ModelHandle, meshIndices: seq<MeshIndex>)
    | PerMesh(model: ModelHandle, meshIndex: MeshIndex)

  /** The mesh index passed along with a request: nullopt for combined submeshes. */
  function MeshIndexOf(r: Request): (mi: Option<MeshIndex>)
    ensures mi.None? <==> r.Combined?
    ensures r.PerMesh? ==> mi == Some(r.meshIndex)
  {
    match r
    case Combined(_, _) => None
    case PerMesh(_, i) => Some(i)
  }

  /** A vertex buffer and a uint32_t index buffer. */
  datatype MeshData<V> = MeshData(vertices: seq<V>, indices: seq<bv32>)

  /** The partitioner callback: (vertices, indices, model, mesh index,
      aMaxVertices, aMaxIndices) to meshlets. */
  type Partitioner<!V> = (seq<V>, seq<bv32>, ModelHandle, Option<MeshIndex>, U32, U32) -> seq<Meshlet>

  /** The meshlets with `model` stamped on: each keeps every other field, so
      putting the old model back gives the original meshlet. */
  function Stamped(ms: seq<Meshlet>, model: ModelHandle): (r: seq<Meshlet>)
    ensures |r| == |ms|
    ensures forall i :: 0 <= i < |r| ==> r[i].model == model
    ensures forall i :: 0 <= i < |r| ==> r[i].(model := ms[i].model) == ms[i]
  {
    seq(|ms|, i requires 0 <= i < |ms| => ms[i].(model := model))
  }

  /** divide_vertices_into_meshlets: call the partitioner once, then set
      mModel on every meshlet it returned, in place. */
  method DivideVerticesIntoMeshlets<V>(
    vertices: seq<V>, indices: seq<bv32>, model: ModelHandle, meshIndex: Option<MeshIndex>,
    maxVertices: U32, maxIndices: U32, divide: Partitioner<V>)
    returns (r: seq<Meshlet>)
    ensures r == Stamped(divide(vertices, indices, model, meshIndex, maxVertices, maxIndices), model)
  {
    var tmp := divide(vertices, indices, model, meshIndex, maxVertices, maxIndices);
    r := tmp;
    var i := 0;
    while i < |r|
      invariant 0 <= i <= |r| && |r| == |tmp|
      invariant forall j :: 0 <= j < i ==> r[j] == tmp[j].(model := model)
      invariant forall j :: i <= j < |r| ==> r[j] == tmp[j]
    {
      r := r[i := r[i].(model := model)];
      i := i + 1;
    }
  }

  /** The result of one division call. */
  function DivideRequest<V>(req: Request, fetch: Request -> MeshData<V>, divide: Partitioner<V>,
                            maxVertices: U32, maxIndices: U32): (ms: seq<Meshlet>)
  {
    var d := fetch(req);
    Stamped(divide(d.vertices, d.indices, req.model, MeshIndexOf(req), maxVertices, maxIndices), req.model)
  }

  /** The result of each division call, call by call. */
  function Results<V>(reqs: seq<Request>, fetch: Request -> MeshData<V>, divide: Partitioner<V>,
                      maxVertices: U32, maxIndices: U32): (rs: seq<seq<Meshlet>>)
  {
    seq(|reqs|, i requires 0 <= i < |reqs| => DivideRequest(reqs[i], fetch, divide, maxVertices, maxIndices))
  }

  /** The results of a sequence of division calls, appended in call order. */
  function DivideAll<V>(reqs: seq<Request>, fetch: Request -> MeshData<V>, divide: Partitioner<V>,
                        maxVertices: U32, maxIndices: U32): (ms: seq<Meshlet>)
  {
    Concat(Results(reqs, fetch, divide, maxVertices, maxIndices))
  }

  /** Collecting two batches of calls is collecting each and appending the results. */
  lemma DivideAllAppend<V>(a: seq<Request>, b: seq<Request>, fetch: Request -> MeshData<V>,
                           divide: Partitioner<V>, maxVertices: U32, maxIndices: U32)
    ensures DivideAll(a + b, fetch, divide, maxVertices, maxIndices)
         == DivideAll(a, fetch, divide, maxVertices, maxIndices) + DivideAll(b, fetch, divide, maxVertices, maxIndices)
  {
    var ra := Results(a, fetch, divide, maxVertices, maxIndices);
    var rb := Results(b, fetch, divide, maxVertices, maxIndices);
    var rab := Results(a + b, fetch, divide, maxVertices, maxIndices);
    forall i | 0 <= i < |rab|
      ensures rab[i] == (ra + rb)[i]
    {
      if i < |a| {
        assert (a + b)[i] == a[i];
      } else {
        assert (a + b)[i] == b[i - |a|];
      }
    }
    assert rab == ra + rb;
    ConcatAppend(ra, rb);
  }

  /** Collecting a single call gives exactly that call's result. */
  lemma DivideAllSingle<V>(r: Request, fetch: Request -> MeshData<V>,
                           divide: Partitioner<V>, maxVertices: U32, maxIndices: U32)
    ensures DivideAll([r], fetch, divide, maxVertices, maxIndices) == DivideRequest(r, fetch, divide, maxVertices, maxIndices)
  {
    var rs := Results([r], fetch, divide, maxVertices, maxIndices);
    assert rs[..0] == [];
  }

  /** The division calls one model selection causes. */
  function SelectionRequests(e: ModelSelection, combineSubmeshes: bool): (rs: seq<Request>)
  {
    if combineSubmeshes then [Combined(e.model, e.meshIndices)]
    else seq(|e.meshIndices|, i requires 0 <= i < |e.meshIndices| => PerMesh(e.model, e.meshIndices[i]))
  }

  /** Total number of selected mesh indices. */
  function MeshCount(models: seq<ModelSelection>): (n: nat)
  {
    if |models| == 0 then 0 else MeshCount(models[..|models| - 1]) + |models[|models| - 1].meshIndices|
  }

  /** All division calls of divide_into_meshlets, in order: with combined
      submeshes one per model, mesh index nullopt; otherwise one per selected
      mesh index, model by model, in the order of each model's mesh indices. */
  function Requests(models: seq<ModelSelection>, combineSubmeshes: bool): (rs: seq<Request>)
    ensures combineSubmeshes ==> |rs| == |models|
    ensures combineSubmeshes ==> forall i :: 0 <= i < |rs| ==>
              rs[i] == Combined(models[i].model, models[i].meshIndices)
    ensures !combineSubmeshes ==> |rs| == MeshCount(models)
    ensures !combineSubmeshes ==> forall i :: 0 <= i < |rs| ==> rs[i].PerMesh?
  {
    if |models| == 0 then []
    else Requests(models[..|models| - 1], combineSubmeshes) + SelectionRequests(models[|models| - 1], combineSubmeshes)
  }

  /** Without combined submeshes, the division call for mesh index `t` of
      model `k` comes after every call for the earlier models and the earlier
      mesh indices of model `k`: at position MeshCount(models[..k]) + t. It is
      for that model and passes that mesh index. */
  lemma {:induction false} RequestsPerMesh(models: seq<ModelSelection>, k: nat, t: nat)
    requires k < |models| && t < |models[k].meshIndices|
    ensures MeshCount(models[..k]) + t < |Requests(models, false)|
    ensures Requests(models, false)[MeshCount(models[..k]) + t] == PerMesh(models[k].model, models[k].meshIndices[t])
    ensures MeshIndexOf(Requests(models, false)[MeshCount(models[..k]) + t]) == Some(models[k].meshIndices[t])
  {
    var front := models[..|models| - 1];
    var rs := Requests(models, false);
    assert rs == Requests(front, false) + SelectionRequests(models[|models| - 1], false);
    if k == |models| - 1 {
      assert models[..k] == front;
    } else {
      assert front[..k] == models[..k];
      assert front[k] == models[k];
      RequestsPerMesh(front, k, t);
    }
  }

  /** The models of a selection. */
  function ModelsOf(models: seq<ModelSelection>): (hs: set<ModelHandle>)
  {
    set e | e in models :: e.model
  }

  /** Every division call is for one of the selected models. */
  lemma {:induction false} RequestsModels(models: seq<ModelSelection>, combineSubmeshes: bool)
    ensures forall r :: r in Requests(models, combineSubmeshes) ==> r.model in ModelsOf(models)
  {
    if |models| > 0 {
      var front := models[..|models| - 1];
      var last := models[|models| - 1];
      RequestsModels(front, combineSubmeshes);
      assert ModelsOf(front) <= ModelsOf(models) by {
        forall e | e in front ensures e in models { }
      }
      assert last in models;
    }
  }

  /** Adding one more model appends exactly that model's calls. */
  lemma RequestsStep(models: seq<ModelSelection>, k: nat, combineSubmeshes: bool)
    requires k < |models|
    ensures Requests(models[..k + 1], combineSubmeshes)
         == Requests(models[..k], combineSubmeshes) + SelectionRequests(models[k], combineSubmeshes)
  {
    assert models[..k + 1][..k] == models[..k];
  }

  /** Every meshlet a sequence of division calls returns carries the model of
      one of the calls. */
  lemma {:induction false} DivideAllModels<V>(reqs: seq<Request>, fetch: Request -> MeshData<V>,
                                               divide: Partitioner<V>, maxVertices: U32, maxIndices: U32,
                                               allowed: set<ModelHandle>)
    requires forall r :: r in reqs ==> r.model in allowed
    ensures forall m :: m in DivideAll(reqs, fetch, divide, maxVertices, maxIndices) ==> m.model in allowed
  {
    if |reqs| > 0 {
      var front := reqs[..|reqs| - 1];
      var last := reqs[|reqs| - 1];
      assert reqs == front + [last];
      DivideAllAppend(front, [last], fetch, divide, maxVertices, maxIndices);
      DivideAllSingle(last, fetch, divide, maxVertices, maxIndices);
      DivideAllModels(front, fetch, divide, maxVertices, maxIndices, allowed);
      assert last in reqs;
    }
  }

  /** The contract a partitioner such as divide_into_meshlets_simple is meant
      to meet: every meshlet it returns is well formed and within the limits
      it was given. */
  ghost predicate ProducesValidMeshlets<V(!new)>(divide: Partitioner<V>)
  {
    forall vs, ix, model, mi, maxV: U32, maxI: U32, i ::
      0 <= i < |divide(vs, ix, model, mi, maxV, maxI)| ==>
        WellFormed(divide(vs, ix, model, mi, maxV, maxI)[i])
        && WithinLimits(divide(vs, ix, model, mi, maxV, maxI)[i], maxV, maxI)
  }

  /** Stamping the model and collecting results keeps whatever the partitioner
      guarantees: with a partitioner that meets its contract, every collected
      meshlet is well formed and within the limits. */
  lemma {:induction false} DivideAllValid<V(!new)>(reqs: seq<Request>, fetch: Request -> MeshData<V>,
                                              divide: Partitioner<V>, maxVertices: U32, maxIndices: U32)
    requires ProducesValidMeshlets(divide)
    ensures forall m :: m in DivideAll(reqs, fetch, divide, maxVertices, maxIndices) ==>
              WellFormed(m) && WithinLimits(m, maxVertices, maxIndices)
  {
    if |reqs| > 0 {
      var front := reqs[..|reqs| - 1];
      var last := reqs[|reqs| - 1];
      assert reqs == front + [last];
      DivideAllAppend(front, [last], fetch, divide, maxVertices, maxIndices);
      DivideAllSingle(last, fetch, divide, maxVertices, maxIndices);
      DivideAllValid(front, fetch, divide, maxVertices, maxIndices);
      var d := fetch(last);
      var raw := divide(d.vertices, d.indices, last.model, MeshIndexOf(last), maxVertices, maxIndices);
      var stamped := DivideRequest(last, fetch, divide, maxVertices, maxIndices);
      forall i | 0 <= i < |stamped|
        ensures WellFormed(stamped[i]) && WithinLimits(stamped[i], maxVertices, maxIndices)
      {
        assert stamped[i].(model := raw[i].model) == raw[i];
        assert WellFormed(raw[i]) && WithinLimits(raw[i], maxVertices, maxIndices);
      }
    }
  }

  /** The inner loop of divide_into_meshlets without combined submeshes: one
      division per selected mesh index, each passing Some(mesh index), the
      results appended in mesh-index order. */
  method DivideEachMesh<V>(selection: ModelSelection, fetch: Request -> MeshData<V>,
                           divide: Partitioner<V>, maxVertices: U32, maxIndices: U32)
    returns (meshlets: seq<Meshlet>)
    ensures meshlets == DivideAll(SelectionRequests(selection, false), fetch, divide, maxVertices, maxIndices)
  {
    var reqs := SelectionRequests(selection, false);
    meshlets := [];
    var t := 0;
    while t < |selection.meshIndices|
      invariant 0 <= t <= |selection.meshIndices|
      invariant meshlets == DivideAll(reqs[..t], fetch, divide, maxVertices, maxIndices)
    {
      var meshIndex := selection.meshIndices[t];
      var req := PerMesh(selection.model, meshIndex);
      var d := fetch(req);
      var tmp := DivideVerticesIntoMeshlets(d.vertices, d.indices, selection.model, Some(meshIndex),
                                            maxVertices, maxIndices, divide);
      assert reqs[..t + 1] == reqs[..t] + [req];
      DivideAllSingle(req, fetch, divide, maxVertices, maxIndices);
      DivideAllAppend(reqs[..t], [req], fetch, divide, maxVertices, maxIndices);
      meshlets := meshlets + tmp;
      t := t + 1;
    }
    assert reqs[..t] == reqs;
  }

  /** The body of divide_into_meshlets for one model: one division of its
      combined submeshes, passing nullopt, or one division per selected mesh
      index. */
  method DivideSelection<V>(selection: ModelSelection, fetch: Request -> MeshData<V>,
                            divide: Partitioner<V>, maxVertices: U32, maxIndices: U32,
                            combineSubmeshes: bool)
    returns (meshlets: seq<Meshlet>)
    ensures meshlets == DivideAll(SelectionRequests(selection, combineSubmeshes), fetch, divide, maxVertices, maxIndices)
  {
    if combineSubmeshes {
      var req := Combined(selection.model, selection.meshIndices);
      var d := fetch(req);
      meshlets := DivideVerticesIntoMeshlets(d.vertices, d.indices, selection.model, None,
                                             maxVertices, maxIndices, divide);
      DivideAllSingle(req, fetch, divide, maxVertices, maxIndices);
    } else {
      meshlets := DivideEachMesh(selection, fetch, divide, maxVertices, maxIndices);
    }
  }

  /** divide_into_meshlets: for each model in order, either one division of
      its combined submeshes or one division per selected mesh index, each
      result appended to the output. The output is the concatenation of the
      results of Requests(models, combineSubmeshes), and every meshlet in it
      belongs to one of the selected models. */
  method DivideIntoMeshlets<V>(models: seq<ModelSelection>, fetch: Request -> MeshData<V>,
                               divide: Partitioner<V>, maxVertices: U32, maxIndices: U32,
                               combineSubmeshes: bool)
    returns (meshlets: seq<Meshlet>)
    ensures meshlets == DivideAll(Requests(models, combineSubmeshes), fetch, divide, maxVertices, maxIndices)
    ensures forall m :: m in meshlets ==> m.model in ModelsOf(models)
  {
    meshlets := [];
    var k := 0;
    while k < |models|
      invariant 0 <= k <= |models|
      invariant meshlets == DivideAll(Requests(models[..k], combineSubmeshes), fetch, divide, maxVertices, maxIndices)
    {
      var tmp := DivideSelection(models[k], fetch, divide, maxVertices, maxIndices, combineSubmeshes);
      DivideAllAppend(Requests(models[..k], combineSubmeshes), SelectionRequests(models[k], combineSubmeshes),
                      fetch, divide, maxVertices, maxIndices);
      RequestsStep(models, k, combineSubmeshes);
      meshlets := meshlets + tmp;
      k := k + 1;
    }
    assert models[..k] == models;
    RequestsModels(models, combineSubmeshes);
    DivideAllModels(Requests(models, combineSubmeshes), fetch, divide, maxVertices, maxIndices, ModelsOf(models));
  }
}
