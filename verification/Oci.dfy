/** The OCI archive verifier: a worklist over descriptors that ends on any archive
    and reports only digests whose bytes it has hashed. */
module Oci {
  import opened Common
  import opened Text

  type Bytes = seq<Byte>
  type Digest = string

  /** A `mediaType` field: absent, null, a text, another scalar, or a list or object. */
  datatype MediaType = Absent | Null | Text(text: string) | Scalar | Composite

  /** Image names and attestation reference of a descriptor; the names are None when
      the annotation is no text. */
  datatype Annotations = Annotations(refNames: Option<set<string>>, refType: string, refDigest: string)

  /** A descriptor as it stands in some JSON document; the annotations are None when
      they are no object. */
  datatype Descriptor =
    | Malformed
    | Descriptor(digest: Digest, size: int, mediaType: MediaType, annotations: Option<Annotations>)

  datatype Slot = Missing | NullSlot | Holds(descriptor: Descriptor)

  /** A JSON document of the graph, or an image configuration; the layers are None
      when they cannot be iterated. */
  datatype Document = Document(schemaVersion: int, childrenAreAList: bool, children: seq<Descriptor>,
                               config: Slot, layers: Option<seq<Descriptor>>,
                               revision: string, source: string)

  datatype Parsed = NotJson | NotAnObject | Object(doc: Document)

  /** What an attestation payload holds: a type that is a text, if any, and the hashes
      of its subjects, if those can be iterated. */
  datatype Payload = NotAStatement | Statement(predicateType: Option<string>, subjects: Option<set<string>>)

  /** The archive's blobs, the hash, and the readers of documents and payloads. */
  datatype Archive = Archive(blobs: map<Digest, Bytes>, sha: Bytes -> Digest,
                             parse: Bytes -> Parsed, gunzip: Bytes -> Option<Bytes>, payload: Bytes -> Payload)

  const CHUNK: nat := 1024 * 1024
  const REPOSITORY: string := "https://github.com/HuGR-dev/corelink-runners"
  const SLSA: string := "https://slsa.dev/provenance/"
  const IMAGE_CONFIG_TYPES: set<string> :=
    {"application/vnd.oci.image.config.v1+json", "application/vnd.docker.container.image.v1+json"}
  const IMAGE_MANIFEST_TYPES: set<string> :=
    {"application/vnd.oci.image.manifest.v1+json", "application/vnd.docker.distribution.manifest.v2+json"}

  predicate IsGraphType(mediaType: string)
  {
    || EndsWith(mediaType, ".manifest.v1+json") || EndsWith(mediaType, ".manifest.v2+json")
    || EndsWith(mediaType, ".index.v1+json")
    || mediaType == "application/vnd.docker.distribution.manifest.list.v2+json"
  }

  /** `get("mediaType", "")` used as a text; None stands for a raised error. */
  function TextOf(mediaType: MediaType): Option<string>
  {
    match mediaType
    case Absent => Some("")
    case Text(text) => Some(text)
    case _ => None
  }

  predicate GraphTyped(d: Descriptor)
    requires d.Descriptor?
  {
    TextOf(d.mediaType).Some? && IsGraphType(TextOf(d.mediaType).value)
  }

  predicate IsOneOf(mediaType: MediaType, types: set<string>)
  {
    mediaType.Text? && mediaType.text in types
  }

  predicate IsHex(s: string)
  {
    forall i | 0 <= i < |s| :: '0' <= s[i] <= '9' || 'a' <= s[i] <= 'f'
  }

  predicate IsSourceSha(s: string)
  {
    |s| == 40 && IsHex(s)
  }

  predicate IsDigest(s: string)
  {
    |s| == 71 && "sha256:" <= s && IsHex(s[7..])
  }

  predicate WellFormed(d: Descriptor)
  {
    d.Descriptor? && IsDigest(d.digest) && d.size >= 0
  }

  // ---------- one member

  /** The archive holds bytes that hash to this name. */
  predicate Authentic(a: Archive, digest: Digest)
  {
    digest in a.blobs && a.sha(a.blobs[digest]) == digest
  }

  predicate Verified(a: Archive, d: Descriptor)
  {
    WellFormed(d) && Authentic(a, d.digest) && |a.blobs[d.digest]| == d.size
  }

  /** Reads the blob in chunks and accepts it exactly when size and hash agree. */
  method VerifyMember(a: Archive, d: Descriptor) returns (r: Option<Bytes>)
    ensures r.Some? <==> Verified(a, d)
    ensures r.Some? ==> r.value == a.blobs[d.digest]
  {
    if !WellFormed(d) || d.digest !in a.blobs { return None; }
    var blob := a.blobs[d.digest];
    var hashed: Bytes, actual := [], 0;
    while actual < |blob|
      invariant actual <= |blob| && hashed == blob[..actual]
    {
      var n := if |blob| - actual < CHUNK then |blob| - actual else CHUNK;
      hashed := hashed + blob[actual..actual + n];
      actual := actual + n;
    }
    assert blob[..|blob|] == blob;
    if actual != d.size || a.sha(hashed) != d.digest { return None; }
    return Some(hashed);
  }

  method VerifyAll(a: Archive, ds: seq<Descriptor>) returns (ok: bool)
    ensures ok <==> forall d | d in ds :: Verified(a, d)
  {
    hide Verified;
    for i := 0 to |ds|
      invariant forall k | 0 <= k < i :: Verified(a, ds[k])
    {
      var r := VerifyMember(a, ds[i]);
      if r.None? {
        assert ds[i] in ds;
        return false;
      }
    }
    return true;
  }

  // ---------- the graph walk

  /** What the walk has found, and the digests in the order of their visits. */
  datatype Graph = Graph(descriptors: map<Digest, Descriptor>, documents: map<Digest, Parsed>, order: seq<Digest>)

  predicate Ordered(g: Graph)
  {
    Elems(g.order) == g.descriptors.Keys
  }

  /** A descriptor has been visited under its digest, with the size it states. */
  predicate Visited(g: Graph, d: Descriptor)
  {
    d.Descriptor? && d.digest in g.descriptors && g.descriptors[d.digest].Descriptor?
    && g.descriptors[d.digest].size == d.size
  }

  /** What a visited graph document must satisfy, its children being visited or due. */
  predicate DocumentDone(a: Archive, g: Graph, digest: Digest, due: seq<Descriptor>)
    requires digest in a.blobs
  {
    && a.parse(a.blobs[digest]).Object?
    && var doc := a.parse(a.blobs[digest]).doc;
    && doc.schemaVersion == 2
    && digest in g.documents
    && (forall c | c in doc.children :: c in due || Visited(g, c))
    && (doc.config.Holds? ==> Verified(a, doc.config.descriptor))
    && doc.layers.Some? && forall l | l in doc.layers.value :: Verified(a, l)
  }

  ghost predicate NodeDone(a: Archive, g: Graph, digest: Digest, due: seq<Descriptor>)
    requires digest in g.descriptors
  {
    var d := g.descriptors[digest];
    && Verified(a, d) && d.digest == digest
    && (GraphTyped(d) ==> DocumentDone(a, g, digest, due))
  }

  ghost predicate NodesDone(a: Archive, g: Graph, due: seq<Descriptor>)
  {
    forall digest | digest in g.descriptors :: NodeDone(a, g, digest, due)
  }

  /** Every stored document is what the bytes of that digest parse to. */
  ghost predicate DocumentsTrue(a: Archive, g: Graph)
  {
    forall digest | digest in g.documents :: Authentic(a, digest) && g.documents[digest] == a.parse(a.blobs[digest])
  }

  ghost predicate RootsDone(g: Graph, roots: seq<Descriptor>, due: seq<Descriptor>)
  {
    forall r | r in roots :: r in due || Visited(g, r)
  }

  /** A finished walk: the roots are visited, every visited blob is authentic, and
      every parsed document has its children visited and its config and layers verified. */
  ghost predicate Closed(a: Archive, roots: seq<Descriptor>, g: Graph)
  {
    NodesDone(a, g, []) && DocumentsTrue(a, g) && RootsDone(g, roots, []) && Ordered(g)
  }

  /** A document the walk has no reason to reject, with its children in `s`. */
  ghost predicate DocumentSound(a: Archive, digest: Digest, s: set<Descriptor>)
    requires digest in a.blobs
  {
    && a.parse(a.blobs[digest]).Object?
    && var doc := a.parse(a.blobs[digest]).doc;
    && doc.schemaVersion == 2 && doc.childrenAreAList && (forall c | c in doc.children :: c in s)
    && (doc.config.Holds? ==> ConfigSound(a, doc.config.descriptor))
    && doc.layers.Some? && forall l | l in doc.layers.value :: Verified(a, l)
  }

  ghost predicate ConfigSound(a: Archive, config: Descriptor)
  {
    && Verified(a, config) && !config.mediaType.Composite?
    && (IsOneOf(config.mediaType, IMAGE_CONFIG_TYPES) ==> !a.parse(a.blobs[config.digest]).NotJson?)
  }

  ghost predicate Sound(a: Archive, d: Descriptor, s: set<Descriptor>)
  {
    Verified(a, d) && TextOf(d.mediaType).Some? && (GraphTyped(d) ==> DocumentSound(a, d.digest, s))
  }

  /** A set of descriptors around the roots in which nothing is wrong. */
  ghost predicate SoundArchive(a: Archive, roots: seq<Descriptor>, s: set<Descriptor>)
  {
    && (forall r | r in roots :: r in s)
    && forall d | d in s :: Sound(a, d, s)
  }

  /** Dropping a due descriptor that has been visited loses nothing. */
  lemma DropVisited(a: Archive, roots: seq<Descriptor>, g: Graph, due: seq<Descriptor>)
    requires |due| > 0 && NodesDone(a, g, due) && RootsDone(g, roots, due) && Visited(g, due[|due| - 1])
    ensures NodesDone(a, g, due[..|due| - 1]) && RootsDone(g, roots, due[..|due| - 1])
  {
  }

  /** Adding a node and its documents keeps everything found so far. */
  lemma AddNode(a: Archive, roots: seq<Descriptor>, g: Graph, h: Graph, due: seq<Descriptor>, more: seq<Descriptor>)
    requires |due| > 0 && NodesDone(a, g, due) && RootsDone(g, roots, due)
    requires var d := due[|due| - 1];
      && Verified(a, d) && d.digest !in g.descriptors && h.descriptors == g.descriptors[d.digest := d]
      && g.documents.Keys <= h.documents.Keys
      && (GraphTyped(d) ==> DocumentDone(a, h, d.digest, due[..|due| - 1] + more))
    ensures NodesDone(a, h, due[..|due| - 1] + more) && RootsDone(h, roots, due[..|due| - 1] + more)
  {
    hide Verified, GraphTyped;
    var d, rest := due[|due| - 1], due[..|due| - 1] + more;
    assert due == due[..|due| - 1] + [d];
    assert WellFormed(d) by { VerifiedIsWellFormed(a, d); }
    assert Visited(h, d);
    forall c | c in due || Visited(g, c) ensures c in rest || Visited(h, c) {
    }
    forall digest | digest in h.descriptors ensures NodeDone(a, h, digest, rest) {
      if digest != d.digest { assert NodeDone(a, g, digest, due); }
    }
  }

  lemma VerifiedIsWellFormed(a: Archive, d: Descriptor)
    requires Verified(a, d)
    ensures WellFormed(d) && d.digest in a.blobs
  {
  }

  lemma MoreDue(a: Archive, g: Graph, digest: Digest, due: seq<Descriptor>, more: seq<Descriptor>)
    requires digest in a.blobs && DocumentDone(a, g, digest, more)
    ensures DocumentDone(a, g, digest, due + more)
  {
  }

  /** Reads one visited graph document: its schema, its configuration and its layers.
      None stands for a raised error. */
  method ReadDocument(a: Archive, g: Graph, digest: Digest, ghost s: set<Descriptor>)
    returns (r: Option<(Graph, seq<Descriptor>)>)
    requires Authentic(a, digest) && DocumentsTrue(a, g)
    ensures DocumentSound(a, digest, s) ==> r.Some? && forall c | c in r.value.1 :: c in s
    ensures r.Some? ==> var (h, more) := r.value;
      && h.descriptors == g.descriptors && h.order == g.order && g.documents.Keys <= h.documents.Keys
      && DocumentsTrue(a, h) && DocumentDone(a, h, digest, more)
  {
    hide Visited;
    var parsed := a.parse(a.blobs[digest]);
    if !parsed.Object? || parsed.doc.schemaVersion != 2 { return None; }
    var doc := parsed.doc;
    var documents := g.documents[digest := parsed];
    if !doc.childrenAreAList { return None; }
    if doc.config.Holds? {
      var config := doc.config.descriptor;
      var raw := VerifyMember(a, config);
      if raw.None? || config.mediaType.Composite? { return None; }
      if IsOneOf(config.mediaType, IMAGE_CONFIG_TYPES) {
        if a.parse(raw.value).NotJson? { return None; }
        documents := documents[config.digest := a.parse(raw.value)];
      }
    }
    if doc.layers.None? { return None; }
    var ok := VerifyAll(a, doc.layers.value);
    if !ok { return None; }
    return Some((Graph(g.descriptors, documents, g.order), doc.children));
  }

  method Visit(a: Archive, g: Graph, d: Descriptor, ghost s: set<Descriptor>) returns (r: Option<(Graph, seq<Descriptor>)>)
    requires DocumentsTrue(a, g) && WellFormed(d) && d.digest !in g.descriptors
    ensures Sound(a, d, s) ==> r.Some? && forall c | c in r.value.1 :: c in s
    ensures r.Some? ==> var (h, more) := r.value;
      && Verified(a, d) && h.descriptors == g.descriptors[d.digest := d] && h.order == g.order + [d.digest]
      && g.documents.Keys <= h.documents.Keys && DocumentsTrue(a, h)
      && (GraphTyped(d) ==> DocumentDone(a, h, d.digest, more))
  {
    hide DocumentDone, IsGraphType, DocumentSound;
    var raw := VerifyMember(a, d);
    if raw.None? { return None; }
    var h := Graph(g.descriptors[d.digest := d], g.documents, g.order + [d.digest]);
    if TextOf(d.mediaType).None? { return None; }
    if !GraphTyped(d) { return Some((h, [])); }
    r := ReadDocument(a, h, d.digest, s);
  }

  /** Ends on every archive, descriptor cycles included. On success the graph is
      closed; and it succeeds on every archive in which nothing reachable is wrong. */
  method Walk(a: Archive, roots: seq<Descriptor>, ghost s: set<Descriptor>) returns (r: Option<Graph>)
    ensures r.Some? ==> Closed(a, roots, r.value)
    ensures SoundArchive(a, roots, s) ==> r.Some?
  {
    hide NodesDone, DocumentsTrue, RootsDone, DocumentDone, Verified, GraphTyped, SoundArchive, Sound, Ordered;
    var g := Graph(map[], map[], []);
    var pending := roots;
    StartWalk(a, roots);
    SoundRoots(a, roots, s);
    while pending != []
      invariant NodesDone(a, g, pending) && DocumentsTrue(a, g) && RootsDone(g, roots, pending) && Ordered(g)
      invariant SoundArchive(a, roots, s) ==> forall d | d in pending :: d in s
      decreases a.blobs.Keys - g.descriptors.Keys, |pending|
    {
      var d := pending[|pending| - 1];
      if SoundArchive(a, roots, s) { SoundMember(a, roots, s, g, pending, d); }
      if !WellFormed(d) { return None; }
      if d.digest in g.descriptors {
        if !Visited(g, d) { return None; }
        DropVisited(a, roots, g, pending);
        pending := pending[..|pending| - 1];
        continue;
      }
      var visit := Visit(a, g, d, s);
      if visit.None? { return None; }
      var (h, more) := visit.value;
      VerifiedIsWellFormed(a, d);
      if GraphTyped(d) { MoreDue(a, h, d.digest, pending[..|pending| - 1], more); }
      AddNode(a, roots, g, h, pending, more);
      OrderGrows(g, h, d);
      assert d.digest in a.blobs.Keys - g.descriptors.Keys && h.descriptors.Keys == g.descriptors.Keys + {d.digest};
      g, pending := h, pending[..|pending| - 1] + more;
    }
    return Some(g);
  }

  lemma OrderGrows(g: Graph, h: Graph, d: Descriptor)
    requires Ordered(g) && d.Descriptor? && h.descriptors == g.descriptors[d.digest := d] && h.order == g.order + [d.digest]
    ensures Ordered(h)
  {
    assert forall x :: x in h.order <==> x in Elems(g.order) || x == d.digest;
  }

  lemma SoundRoots(a: Archive, roots: seq<Descriptor>, s: set<Descriptor>)
    ensures SoundArchive(a, roots, s) ==> forall d | d in roots :: d in s
  {
  }

  /** In a sound archive two descriptors of one digest cannot disagree on its size. */
  lemma SoundMember(a: Archive, roots: seq<Descriptor>, s: set<Descriptor>, g: Graph, due: seq<Descriptor>, d: Descriptor)
    requires SoundArchive(a, roots, s) && NodesDone(a, g, due) && d in s
    ensures WellFormed(d) && Verified(a, d) && Sound(a, d, s)
    ensures d.digest in g.descriptors ==> Visited(g, d)
  {
    hide DocumentSound, DocumentDone, GraphTyped;
    assert Sound(a, d, s);
    if d.digest in g.descriptors { assert NodeDone(a, g, d.digest, due); }
  }

  lemma StartWalk(a: Archive, roots: seq<Descriptor>)
    ensures var g := Graph(map[], map[], []);
      NodesDone(a, g, roots) && DocumentsTrue(a, g) && RootsDone(g, roots, roots) && Ordered(g)
  {
  }

  // ---------- provenance

  datatype Reading = Raises | Unbound | Binds

  /** `digest.removeprefix("sha256:")` */
  function HexOf(digest: Digest): string
  {
    if "sha256:" <= digest then digest[7..] else digest
  }

  function Unpacked(a: Archive, layer: Descriptor): Option<Bytes>
    requires Verified(a, layer)
  {
    var kind, blob := TextOf(layer.mediaType), a.blobs[layer.digest];
    if kind.None? then None else if EndsWith(kind.value, "+gzip") then a.gunzip(blob) else Some(blob)
  }

  /** What one authentic attestation layer says about the manifest. */
  function ReadLayer(a: Archive, layer: Descriptor, manifest: Digest): Reading
    requires Verified(a, layer)
  {
    var unpacked := Unpacked(a, layer);
    if unpacked.None? then Raises
    else match a.payload(unpacked.value)
      case NotAStatement => Unbound
      case Statement(predicateType, subjects) =>
        if predicateType.None? then Raises
        else if !(SLSA <= predicateType.value) then Unbound
        else if subjects.None? then Raises
        else if HexOf(manifest) in subjects.value then Binds else Unbound
  }

  /** The bytes of the layer, unpacked if and only if its media type says gzip. */
  predicate Unpacks(a: Archive, layer: Descriptor, bytes: Bytes)
    requires Verified(a, layer)
  {
    var blob := a.blobs[layer.digest];
    match layer.mediaType
    case Text(text) => if EndsWith(text, "+gzip") then a.gunzip(blob) == Some(bytes) else bytes == blob
    case Absent => bytes == blob
    case _ => false
  }

  /** An authentic layer holds an SLSA provenance statement that has the manifest's hash
      among its subjects. */
  ghost predicate ProvenanceLayer(a: Archive, layer: Descriptor, manifest: Digest)
  {
    Verified(a, layer) && exists bytes :: Unpacks(a, layer, bytes) && ProvenanceStatement(a.payload(bytes), manifest)
  }

  predicate ProvenanceStatement(payload: Payload, manifest: Digest)
  {
    && payload.Statement? && payload.predicateType.Some? && payload.subjects.Some?
    && "https://slsa.dev/provenance/" <= payload.predicateType.value
    && exists hash | hash in payload.subjects.value :: IsHashOf(hash, manifest)
  }

  /** The digest without `sha256:` in front. */
  predicate IsHashOf(hash: string, digest: Digest)
  {
    "sha256:" + hash == digest || (hash == digest && !("sha256:" <= digest))
  }

  /** Reading the layer raises: it cannot be unpacked, its statement has no text for a
      type, or it is a provenance statement whose subjects cannot be iterated. */
  ghost predicate UnreadableLayer(a: Archive, layer: Descriptor)
    requires Verified(a, layer)
  {
    || (forall bytes :: !Unpacks(a, layer, bytes))
    || exists bytes :: Unpacks(a, layer, bytes) && UnreadableStatement(a.payload(bytes))
  }

  predicate UnreadableStatement(payload: Payload)
  {
    && payload.Statement?
    && (payload.predicateType.None?
        || ("https://slsa.dev/provenance/" <= payload.predicateType.value && payload.subjects.None?))
  }

  lemma UnpackedIff(a: Archive, layer: Descriptor, bytes: Bytes)
    requires Verified(a, layer)
    ensures Unpacked(a, layer) == Some(bytes) <==> Unpacks(a, layer, bytes)
  {
  }

  lemma HashIff(manifest: Digest, hash: string)
    ensures HexOf(manifest) == hash <==> IsHashOf(hash, manifest)
  {
    if "sha256:" <= manifest {
      assert manifest == "sha256:" + manifest[7..];
      assert "sha256:" + hash == manifest ==> hash == manifest[7..] by { assert ("sha256:" + hash)[7..] == hash; }
    } else {
      assert "sha256:" <= "sha256:" + hash;
    }
  }

  /** What a layer says, in terms of its bytes. */
  lemma ReadLayerIff(a: Archive, layer: Descriptor, manifest: Digest)
    requires Verified(a, layer)
    ensures ReadLayer(a, layer, manifest) == Binds <==> ProvenanceLayer(a, layer, manifest)
    ensures ReadLayer(a, layer, manifest) == Raises <==> UnreadableLayer(a, layer)
  {
    hide Verified, Unpacked, Unpacks, IsHashOf, HexOf;
    forall bytes ensures Unpacked(a, layer) == Some(bytes) <==> Unpacks(a, layer, bytes) { UnpackedIff(a, layer, bytes); }
    forall hash ensures HexOf(manifest) == hash <==> IsHashOf(hash, manifest) { HashIff(manifest, hash); }
    var unpacked := Unpacked(a, layer);
    if unpacked.Some? {
      assert Unpacks(a, layer, unpacked.value);
      assert IsHashOf(HexOf(manifest), manifest);
    }
  }

  /** A visited attestation names this manifest and one of its authentic layers is a
      provenance statement about it. */
  ghost predicate HasProvenance(a: Archive, g: Graph, manifest: Digest)
  {
    exists digest, layer :: AttestedBy(a, g, digest, layer, manifest)
  }

  ghost predicate AttestedBy(a: Archive, g: Graph, digest: Digest, layer: Descriptor, manifest: Digest)
  {
    && digest in g.descriptors && digest in g.documents && g.documents[digest].Object?
    && g.descriptors[digest].Descriptor? && g.descriptors[digest].annotations.Some?
    && g.descriptors[digest].annotations.value.refType == "attestation-manifest"
    && g.descriptors[digest].annotations.value.refDigest == manifest
    && g.documents[digest].doc.layers.Some? && layer in g.documents[digest].doc.layers.value
    && ProvenanceLayer(a, layer, manifest)
  }

  /** The descriptor's annotations make it an attestation of this manifest. */
  predicate Attests(d: Descriptor, manifest: Digest)
  {
    && d.Descriptor? && d.annotations.Some?
    && d.annotations.value.refType == "attestation-manifest" && d.annotations.value.refDigest == manifest
  }

  /** An authentic layer that can be read and is no statement about the manifest. */
  ghost predicate LayerQuiet(a: Archive, layer: Descriptor, manifest: Digest)
  {
    Verified(a, layer) && !UnreadableLayer(a, layer) && !ProvenanceLayer(a, layer, manifest)
  }

  lemma LayerReadings(a: Archive, layer: Descriptor, manifest: Digest)
    requires Verified(a, layer)
    ensures ReadLayer(a, layer, manifest) == Binds <==> ProvenanceLayer(a, layer, manifest)
    ensures ReadLayer(a, layer, manifest) == Unbound <==> LayerQuiet(a, layer, manifest)
  {
    hide ReadLayer, UnreadableLayer, ProvenanceLayer, Verified;
    ReadLayerIff(a, layer, manifest);
  }

  /** Some layer binds the manifest, and no earlier one raises or binds it. */
  ghost predicate FirstBinds(a: Archive, layers: seq<Descriptor>, manifest: Digest)
  {
    exists j :: 0 <= j < |layers| && ProvenanceLayer(a, layers[j], manifest) && LayersQuiet(a, layers[..j], manifest)
  }

  ghost predicate LayersQuiet(a: Archive, layers: seq<Descriptor>, manifest: Digest)
  {
    forall l | l in layers :: LayerQuiet(a, l, manifest)
  }

  lemma NotVerified(a: Archive, layer: Descriptor, manifest: Digest)
    requires !Verified(a, layer)
    ensures !LayerQuiet(a, layer, manifest) && !ProvenanceLayer(a, layer, manifest)
  {
  }

  /** The first layer that binds the manifest or raises decides. */
  method LayerProvenance(a: Archive, layers: seq<Descriptor>, manifest: Digest) returns (found: Option<bool>)
    ensures found == Some(true) <==> FirstBinds(a, layers, manifest)
    ensures found == Some(false) <==> LayersQuiet(a, layers, manifest)
  {
    hide ReadLayer, Verified, LayerQuiet, ProvenanceLayer;
    for j := 0 to |layers|
      invariant forall k | 0 <= k < j :: LayerQuiet(a, layers[k], manifest) && !ProvenanceLayer(a, layers[k], manifest)
    {
      assert layers[j] in layers && forall k | j < k <= |layers| :: layers[j] in layers[..k];
      var payload := VerifyMember(a, layers[j]);
      if payload.None? {
        NotVerified(a, layers[j], manifest);
        return None;
      }
      LayerReadings(a, layers[j], manifest);
      match ReadLayer(a, layers[j], manifest)
      case Raises => return None;
      case Binds =>
        assert ProvenanceLayer(a, layers[j], manifest) && LayersQuiet(a, layers[..j], manifest);
        return Some(true);
      case Unbound =>
    }
    return Some(false);
  }

  /** At this descriptor the search finds a statement. */
  ghost predicate FoundAt(a: Archive, g: Graph, digest: Digest, manifest: Digest)
  {
    && digest in g.descriptors && digest in g.documents && g.documents[digest].Object?
    && Attests(g.descriptors[digest], manifest)
    && g.documents[digest].doc.layers.Some? && FirstBinds(a, g.documents[digest].doc.layers.value, manifest)
  }

  /** At this descriptor the search finds nothing and does not raise. */
  ghost predicate QuietAt(a: Archive, g: Graph, digest: Digest, manifest: Digest)
    requires digest in g.descriptors
  {
    digest in g.documents ==>
      var d, parsed := g.descriptors[digest], g.documents[digest];
      && d.Descriptor? && d.annotations.Some?
      && (Attests(d, manifest) ==>
            parsed.Object? && parsed.doc.layers.Some? && LayersQuiet(a, parsed.doc.layers.value, manifest))
  }

  method AttestationAt(a: Archive, g: Graph, digest: Digest, manifest: Digest) returns (found: Option<bool>)
    requires digest in g.descriptors && digest in g.documents
    ensures found == Some(true) <==> FoundAt(a, g, digest, manifest)
    ensures found == Some(false) <==> QuietAt(a, g, digest, manifest)
  {
    hide FirstBinds, LayersQuiet;
    var d, parsed := g.descriptors[digest], g.documents[digest];
    if !d.Descriptor? || d.annotations.None? { return None; }
    if !Attests(d, manifest) { return Some(false); }
    if !parsed.Object? || parsed.doc.layers.None? { return None; }
    found := LayerProvenance(a, parsed.doc.layers.value, manifest);
  }

  /** The search comes to a statement before anything raises. */
  ghost predicate Found(a: Archive, g: Graph, manifest: Digest)
    requires Ordered(g)
  {
    exists i :: 0 <= i < |g.order| && FoundAt(a, g, g.order[i], manifest) && QuietBefore(a, g, i, manifest)
  }

  ghost predicate QuietBefore(a: Archive, g: Graph, i: nat, manifest: Digest)
    requires Ordered(g) && i <= |g.order|
  {
    forall k | 0 <= k < i :: g.order[k] in Elems(g.order) && QuietAt(a, g, g.order[k], manifest)
  }

  lemma FoundIsNotQuiet(a: Archive, g: Graph, digest: Digest, manifest: Digest)
    requires FoundAt(a, g, digest, manifest)
    ensures !QuietAt(a, g, digest, manifest)
  {
    hide Verified, ReadLayer;
    var layers := g.documents[digest].doc.layers.value;
    var j :| 0 <= j < |layers| && ProvenanceLayer(a, layers[j], manifest);
    assert layers[j] in layers;
  }

  /** None stands for a raised error: the first visited descriptor that raises or has a
      statement decides. */
  method FindProvenance(a: Archive, g: Graph, manifest: Digest) returns (found: Option<bool>)
    requires Ordered(g)
    ensures found == Some(true) <==> Found(a, g, manifest)
    ensures found == Some(false) <==> QuietBefore(a, g, |g.order|, manifest)
  {
    hide FoundAt, QuietAt;
    for i := 0 to |g.order|
      invariant QuietBefore(a, g, i, manifest)
    {
      var digest := g.order[i];
      assert digest in Elems(g.order);
      if digest in g.documents {
        var here := AttestationAt(a, g, digest, manifest);
        if here != Some(false) {
          forall k | 0 <= k < |g.order| && FoundAt(a, g, g.order[k], manifest) && QuietBefore(a, g, k, manifest) ensures k == i {
            if k < i { FoundIsNotQuiet(a, g, g.order[k], manifest); }
          }
          return here;
        }
      } else {
        NoDocumentIsQuiet(a, g, digest, manifest);
      }
    }
    forall k | 0 <= k < |g.order| ensures !FoundAt(a, g, g.order[k], manifest) {
      if FoundAt(a, g, g.order[k], manifest) { FoundIsNotQuiet(a, g, g.order[k], manifest); }
    }
    return Some(false);
  }

  lemma NoDocumentIsQuiet(a: Archive, g: Graph, digest: Digest, manifest: Digest)
    requires digest in g.descriptors && digest !in g.documents
    ensures QuietAt(a, g, digest, manifest)
  {
  }

  /** A statement the search comes to is one. */
  lemma FoundIsProvenance(a: Archive, g: Graph, manifest: Digest)
    requires Ordered(g) && Found(a, g, manifest)
    ensures HasProvenance(a, g, manifest)
  {
    hide Verified, ReadLayer, QuietBefore, LayersQuiet;
    var i :| 0 <= i < |g.order| && FoundAt(a, g, g.order[i], manifest);
    var layers := g.documents[g.order[i]].doc.layers.value;
    var j :| 0 <= j < |layers| && ProvenanceLayer(a, layers[j], manifest);
    assert AttestedBy(a, g, g.order[i], layers[j], manifest);
  }

  /** Nothing about this descriptor makes the search raise. */
  ghost predicate Readable(a: Archive, g: Graph, digest: Digest, manifest: Digest)
    requires digest in g.descriptors && digest in g.documents
  {
    var d, parsed := g.descriptors[digest], g.documents[digest];
    && d.Descriptor? && d.annotations.Some?
    && (Attests(d, manifest) ==>
          && parsed.Object? && parsed.doc.layers.Some?
          && forall l | l in parsed.doc.layers.value :: Verified(a, l) && !UnreadableLayer(a, l))
  }

  ghost predicate AllReadable(a: Archive, g: Graph, manifest: Digest)
  {
    forall digest | digest in g.descriptors && digest in g.documents :: Readable(a, g, digest, manifest)
  }

  lemma {:induction false} BindsEventually(a: Archive, layers: seq<Descriptor>, manifest: Digest)
    requires forall l | l in layers :: Verified(a, l) && !UnreadableLayer(a, l)
    ensures FirstBinds(a, layers, manifest) || LayersQuiet(a, layers, manifest)
  {
    hide Verified, ReadLayer;
    if layers != [] {
      var n := |layers| - 1;
      assert layers == layers[..n] + [layers[n]];
      BindsEventually(a, layers[..n], manifest);
      if FirstBinds(a, layers[..n], manifest) {
        var j :| 0 <= j < n && ProvenanceLayer(a, layers[..n][j], manifest) && LayersQuiet(a, layers[..n][..j], manifest);
        assert layers[..n][..j] == layers[..j] && ProvenanceLayer(a, layers[j], manifest);
      } else if ProvenanceLayer(a, layers[n], manifest) {
        assert ProvenanceLayer(a, layers[n], manifest) && LayersQuiet(a, layers[..n], manifest);
      }
    }
  }

  lemma ReadableDecides(a: Archive, g: Graph, digest: Digest, manifest: Digest)
    requires digest in g.descriptors && AllReadable(a, g, manifest)
    ensures FoundAt(a, g, digest, manifest) || QuietAt(a, g, digest, manifest)
  {
    hide Verified, ReadLayer, FirstBinds, LayersQuiet;
    if digest in g.documents && Attests(g.descriptors[digest], manifest) {
      assert Readable(a, g, digest, manifest);
      BindsEventually(a, g.documents[digest].doc.layers.value, manifest);
    }
  }

  lemma {:induction false} FoundEventually(a: Archive, g: Graph, i: nat, manifest: Digest)
    requires Ordered(g) && AllReadable(a, g, manifest) && i <= |g.order|
    ensures Found(a, g, manifest) || QuietBefore(a, g, i, manifest)
  {
    hide FoundAt, QuietAt, AllReadable;
    if i > 0 {
      FoundEventually(a, g, i - 1, manifest);
      assert g.order[i - 1] in Elems(g.order);
      ReadableDecides(a, g, g.order[i - 1], manifest);
    }
  }

  lemma AttestedIsNotQuiet(a: Archive, g: Graph, digest: Digest, layer: Descriptor, manifest: Digest)
    requires AttestedBy(a, g, digest, layer, manifest)
    ensures !QuietAt(a, g, digest, manifest)
  {
    hide Verified, ReadLayer;
    assert !LayerQuiet(a, layer, manifest);
  }

  /** Where nothing raises, the order of the visits does not matter. */
  lemma FoundIffProvenance(a: Archive, g: Graph, manifest: Digest)
    requires Ordered(g) && AllReadable(a, g, manifest)
    ensures Found(a, g, manifest) <==> HasProvenance(a, g, manifest)
  {
    hide Found, HasProvenance, AttestedBy, QuietAt, AllReadable;
    if Found(a, g, manifest) {
      FoundIsProvenance(a, g, manifest);
    } else if HasProvenance(a, g, manifest) {
      var digest, layer := Attestation(a, g, manifest);
      assert digest in Elems(g.order);
      FoundEventually(a, g, |g.order|, manifest);
      var k :| 0 <= k < |g.order| && g.order[k] == digest;
      AttestedIsNotQuiet(a, g, digest, layer, manifest);
    }
  }

  lemma Attestation(a: Archive, g: Graph, manifest: Digest) returns (digest: Digest, layer: Descriptor)
    requires HasProvenance(a, g, manifest)
    ensures digest in g.descriptors && AttestedBy(a, g, digest, layer, manifest)
  {
    digest, layer :| AttestedBy(a, g, digest, layer, manifest);
  }

  // ---------- the verdict

  datatype Metadata = Metadata(digest: Option<Digest>, configDigest: Option<Digest>, descriptor: Option<Descriptor>)

  datatype Report = Report(output: Digest, manifest: Digest, config: Digest)

  /** The image names of every root can be read. */
  predicate RootsNamed(roots: seq<Descriptor>)
  {
    forall r | r in roots :: r.Descriptor? && r.annotations.Some? && r.annotations.value.refNames.Some?
  }

  function Named(roots: seq<Descriptor>, names: set<string>): (named: seq<Descriptor>)
    requires RootsNamed(roots)
    ensures forall d :: d in named <==> d in roots && d.annotations.value.refNames.value * names != {}
  {
    if roots == [] then []
    else
      var rest := Named(roots[1..], names);
      assert roots == [roots[0]] + roots[1..];
      if roots[0].annotations.value.refNames.value * names != {} then [roots[0]] + rest else rest
  }

  /** Exactly one root carries the requested name. */
  predicate Addressed(roots: seq<Descriptor>, names: set<string>)
  {
    RootsNamed(roots) && |Named(roots, names)| == 1
  }

  predicate IsManifest(g: Graph, digest: Digest)
  {
    && digest in g.descriptors && digest in g.documents
    && g.descriptors[digest].Descriptor? && IsOneOf(g.descriptors[digest].mediaType, IMAGE_MANIFEST_TYPES)
  }

  predicate IsRunnable(g: Graph, digest: Digest)
  {
    && IsManifest(g, digest) && g.documents[digest].Object? && g.documents[digest].doc.config.Holds?
    && g.documents[digest].doc.config.descriptor.Descriptor?
    && IsOneOf(g.documents[digest].doc.config.descriptor.mediaType, IMAGE_CONFIG_TYPES)
  }

  /** The scan for runnable manifests raises on a manifest whose config is null. */
  predicate ScanReadable(g: Graph)
  {
    forall digest | digest in g.descriptors && IsManifest(g, digest) ::
      g.documents[digest].Object? && !g.documents[digest].doc.config.NullSlot?
  }

  /** The build metadata, where present, agrees with the verified graph: it names the
      tagged root, or the runnable manifest with a descriptor to back that up. */
  predicate MetadataAgrees(g: Graph, root: Digest, manifest: Digest, config: Digest, m: Metadata)
  {
    && (m.configDigest.Some? ==> IsDigest(config) && m.configDigest.value == config)
    && (m.descriptor.Some? ==> DescriptorAgrees(g, root, manifest, m))
    && (m.digest.Some? ==> IsDigest(m.digest.value))
    && (m.digest.Some? ==> m.digest.value == root || (m.digest.value == manifest && m.descriptor.Some?))
  }

  /** The output digest to report, if the metadata agrees. */
  function Reconcile(g: Graph, root: Digest, manifest: Digest, config: Digest, m: Metadata): (output: Option<Digest>)
    ensures output.Some? <==> MetadataAgrees(g, root, manifest, config, m)
    ensures output.Some? ==> output.value in {root, manifest}
    ensures output.Some? && m.digest.Some? ==> m.digest.value == output.value
    ensures m.digest.None? && m.descriptor.None? && output.Some? ==> output.value == root
    ensures output.Some? && m.descriptor.Some? ==> Visited(g, m.descriptor.value) && m.descriptor.value.digest == output.value
  {
    if m.digest.Some? && !IsDigest(m.digest.value) then None
    else if m.configDigest.Some? && (!IsDigest(m.configDigest.value) || m.configDigest.value != config) then None
    else if m.descriptor.Some? && !DescriptorAgrees(g, root, manifest, m) then None
    else if m.digest.Some? then
      if m.digest.value == root then m.digest
      else if m.digest.value != manifest || m.descriptor.None? then None
      else m.digest
    else if m.descriptor.Some? then Some(m.descriptor.value.digest)
    else Some(root)
  }

  /** `get("mediaType")` */
  function OrNull(mediaType: MediaType): MediaType
  {
    if mediaType == Absent then Null else mediaType
  }

  predicate DescriptorAgrees(g: Graph, root: Digest, manifest: Digest, m: Metadata)
    requires m.descriptor.Some?
  {
    var d := m.descriptor.value;
    && WellFormed(d)
    && (d.digest == root || (d.digest == manifest && IsOneOf(d.mediaType, IMAGE_MANIFEST_TYPES)))
    && Visited(g, d) && OrNull(g.descriptors[d.digest].mediaType) == OrNull(d.mediaType)
    && (m.digest.Some? ==> m.digest.value == d.digest)
  }

  /** What a verdict promises about the archive. */
  ghost predicate Trustworthy(a: Archive, roots: seq<Descriptor>, sourceSha: string, g: Graph, report: Report)
  {
    && Closed(a, roots, g)
    && Authentic(a, report.output) && Authentic(a, report.manifest) && Authentic(a, report.config)
    && report.output in g.descriptors && report.manifest in g.descriptors
    && RunnableImage(a, g, report.manifest, report.config)
    && CarriesCommit(a.parse(a.blobs[report.config]), sourceSha)
    && HasProvenance(a, g, report.manifest)
    && forall d | d in {report.output, report.manifest, report.config} :: |d| == 71 && "sha256:" <= d
  }

  /** The manifest was visited under an image manifest type, and its own bytes name this
      configuration under an image configuration type. */
  ghost predicate RunnableImage(a: Archive, g: Graph, manifest: Digest, config: Digest)
    requires manifest in a.blobs && manifest in g.descriptors
  {
    && g.descriptors[manifest].Descriptor? && g.descriptors[manifest].mediaType.Text?
    && g.descriptors[manifest].mediaType.text in
         {"application/vnd.oci.image.manifest.v1+json", "application/vnd.docker.distribution.manifest.v2+json"}
    && var parsed := a.parse(a.blobs[manifest]);
    && parsed.Object? && parsed.doc.config.Holds? && parsed.doc.config.descriptor.Descriptor?
    && parsed.doc.config.descriptor.digest == config && parsed.doc.config.descriptor.mediaType.Text?
    && parsed.doc.config.descriptor.mediaType.text in
         {"application/vnd.oci.image.config.v1+json", "application/vnd.docker.container.image.v1+json"}
  }

  predicate CarriesCommit(parsed: Parsed, sourceSha: string)
  {
    && parsed.Object? && parsed.doc.revision == sourceSha
    && parsed.doc.source == "https://github.com/HuGR-dev/corelink-runners"
  }

  predicate LabelsMatch(a: Archive, config: Digest, sourceSha: string)
    requires config in a.blobs
  {
    var parsed := a.parse(a.blobs[config]);
    parsed.Object? && parsed.doc.revision == sourceSha && parsed.doc.source == REPOSITORY
  }

  lemma ManifestTypesAreGraphTypes(mediaType: string)
    requires mediaType in IMAGE_MANIFEST_TYPES
    ensures IsGraphType(mediaType)
  {
  }

  /** Whatever was visited under a manifest or index type has a document of schema 2 whose
      children were visited and whose configuration and layers are authentic. */
  lemma ClosedUnderChildren(a: Archive, roots: seq<Descriptor>, g: Graph, digest: Digest)
    requires Closed(a, roots, g) && digest in g.descriptors && g.descriptors[digest].Descriptor?
    requires var mediaType := g.descriptors[digest].mediaType;
      mediaType.Text? &&
      (|| EndsWith(mediaType.text, ".manifest.v1+json") || EndsWith(mediaType.text, ".manifest.v2+json")
       || EndsWith(mediaType.text, ".index.v1+json")
       || mediaType.text == "application/vnd.docker.distribution.manifest.list.v2+json")
    ensures Authentic(a, digest) && a.parse(a.blobs[digest]).Object?
    ensures var doc := a.parse(a.blobs[digest]).doc;
      && doc.schemaVersion == 2
      && (forall c | c in doc.children :: c.Descriptor? && c.digest in g.descriptors && Authentic(a, c.digest))
      && (doc.config.Holds? ==> Verified(a, doc.config.descriptor))
      && doc.layers.Some? && forall l | l in doc.layers.value :: Verified(a, l)
  {
    hide EndsWith;
    assert NodeDone(a, g, digest, []);
    forall c | c in a.parse(a.blobs[digest]).doc.children ensures c.Descriptor? && c.digest in g.descriptors && Authentic(a, c.digest) {
      assert Visited(g, c);
      assert NodeDone(a, g, c.digest, []);
    }
  }

  lemma RootIsVisited(a: Archive, roots: seq<Descriptor>, g: Graph, root: Descriptor)
    requires Closed(a, roots, g) && root in roots
    ensures root.Descriptor? && root.digest in g.descriptors && Authentic(a, root.digest)
  {
  }

  lemma RunnableIsVerified(a: Archive, roots: seq<Descriptor>, g: Graph, manifest: Digest)
    requires Closed(a, roots, g) && IsRunnable(g, manifest)
    ensures Authentic(a, manifest) && g.documents[manifest] == a.parse(a.blobs[manifest])
    ensures Verified(a, g.documents[manifest].doc.config.descriptor)
  {
    hide IsGraphType;
    assert NodeDone(a, g, manifest, []);
    ManifestTypesAreGraphTypes(g.descriptors[manifest].mediaType.text);
  }

  lemma VerifiedDigest(a: Archive, d: Descriptor)
    requires Verified(a, d)
    ensures |d.digest| == 71 && "sha256:" <= d.digest
  {
  }

  lemma VisitedDigest(a: Archive, roots: seq<Descriptor>, g: Graph, digest: Digest)
    requires Closed(a, roots, g) && digest in g.descriptors
    ensures |digest| == 71 && "sha256:" <= digest
  {
    assert NodeDone(a, g, digest, []);
  }

  /** Everything the verdict asks of the runnable manifest of a walked graph. */
  ghost predicate Deserves(a: Archive, g: Graph, root: Digest, manifest: Digest, sourceSha: string, m: Metadata)
    requires IsRunnable(g, manifest) && Ordered(g)
  {
    var config := g.documents[manifest].doc.config.descriptor.digest;
    && config in g.documents && config in a.blobs && g.documents[config].Object? && LabelsMatch(a, config, sourceSha)
    && Found(a, g, manifest) && MetadataAgrees(g, root, manifest, config, m)
  }

  method Judge(a: Archive, roots: seq<Descriptor>, g: Graph, root: Digest, manifest: Digest, sourceSha: string, m: Metadata)
    returns (r: Option<Report>)
    requires Closed(a, roots, g) && IsRunnable(g, manifest) && root in g.descriptors && Authentic(a, root)
    ensures r.Some? ==> Trustworthy(a, roots, sourceSha, g, r.value) && r.value.manifest == manifest
    ensures r.Some? <==> Deserves(a, g, root, manifest, sourceSha, m)
    ensures r.Some? && m.digest.Some? ==> m.digest.value == r.value.output
    ensures r.Some? && m.configDigest.Some? ==> m.configDigest.value == r.value.config
  {
    hide Reconcile, HasProvenance, Found, QuietBefore, IsDigest, DescriptorAgrees;
    RunnableIsVerified(a, roots, g, manifest);
    VisitedDigest(a, roots, g, manifest);
    VisitedDigest(a, roots, g, root);
    VerifiedDigest(a, g.documents[manifest].doc.config.descriptor);
    var config := g.documents[manifest].doc.config.descriptor.digest;
    if config !in g.documents || !g.documents[config].Object? { return None; }
    DocumentIsParsed(a, roots, g, config);
    if !LabelsMatch(a, config, sourceSha) { return None; }
    var found := FindProvenance(a, g, manifest);
    if found != Some(true) { return None; }
    FoundIsProvenance(a, g, manifest);
    var output := Reconcile(g, root, manifest, config, m);
    if output.None? { return None; }
    return Some(Report(output.value, manifest, config));
  }

  lemma ClosedIsOrdered(a: Archive, roots: seq<Descriptor>, g: Graph)
    requires Closed(a, roots, g)
    ensures Ordered(g)
  {
  }

  lemma DocumentIsParsed(a: Archive, roots: seq<Descriptor>, g: Graph, digest: Digest)
    requires Closed(a, roots, g) && digest in g.documents
    ensures Authentic(a, digest) && g.documents[digest] == a.parse(a.blobs[digest])
  {
  }

  /** What a verdict takes beyond the walk: the scan for runnable manifests does not raise
      and finds this one only, which deserves a report. */
  ghost predicate Approved(a: Archive, roots: seq<Descriptor>, names: set<string>, sourceSha: string, m: Metadata,
                           g: Graph, manifest: Digest)
    requires Addressed(roots, names)
  {
    && Ordered(g) && ScanReadable(g) && OnlyRunnable(g, manifest)
    && Deserves(a, g, Named(roots, names)[0].digest, manifest, sourceSha, m)
  }

  /** `verify_archive`: a reported output, manifest and configuration digest all name
      authentic blobs of a closed graph, the manifest is the only runnable one, its
      configuration carries the dispatched commit, and provenance is bound to it. An
      archive in which the walk finds nothing wrong is refused only when it does not
      meet the approval conditions. */
  method VerifyArchive(a: Archive, roots: seq<Descriptor>, names: set<string>, sourceSha: string, m: Metadata,
                       ghost s: set<Descriptor>)
    returns (r: Option<Report>, ghost graph: Graph)
    ensures r.Some? ==> IsSourceSha(sourceSha) && Addressed(roots, names)
    ensures r.Some? ==> Trustworthy(a, roots, sourceSha, graph, r.value)
    ensures r.Some? ==> Approved(a, roots, names, sourceSha, m, graph, r.value.manifest)
    ensures SoundArchive(a, roots, s) && IsSourceSha(sourceSha) && Addressed(roots, names) && r.None? ==>
              Closed(a, roots, graph) && forall manifest :: !Approved(a, roots, names, sourceSha, m, graph, manifest)
    ensures r.Some? && m.digest.Some? ==> m.digest.value == r.value.output
    ensures r.Some? && m.configDigest.Some? ==> m.configDigest.value == r.value.config
  {
    hide Closed, IsRunnable, ScanReadable, Trustworthy, Authentic, Deserves, SoundArchive, Named, Ordered;
    graph := Graph(map[], map[], []);
    r := None;
    if !IsSourceSha(sourceSha) || !RootsNamed(roots) { return; }
    var named := Named(roots, names);
    if |named| != 1 { return; }
    assert named[0] in named;
    var walked := Walk(a, roots, s);
    if walked.None? { return; }
    var g := walked.value;
    graph := g;
    RootIsVisited(a, roots, g, named[0]);
    ClosedIsOrdered(a, roots, g);
    if !ScanReadable(g) { return; }
    var runnable := set d | d in g.descriptors && IsRunnable(g, d);
    if |runnable| != 1 {
      forall manifest | OnlyRunnable(g, manifest) ensures false { OneRunnable(g, runnable, manifest); }
      return;
    }
    var manifest :| manifest in runnable;
    OnlyElement(runnable, manifest);
    assert forall d | d in g.descriptors && IsRunnable(g, d) :: d in runnable;
    r := Judge(a, roots, g, named[0].digest, manifest, sourceSha, m);
    assert forall other | OnlyRunnable(g, other) :: other == manifest;
  }

  /** The graph holds exactly one runnable image manifest, this one. */
  ghost predicate OnlyRunnable(g: Graph, manifest: Digest)
  {
    manifest in g.descriptors && IsRunnable(g, manifest)
    && forall d | d in g.descriptors && IsRunnable(g, d) :: d == manifest
  }

  lemma OneRunnable(g: Graph, runnable: set<Digest>, manifest: Digest)
    requires OnlyRunnable(g, manifest) && forall d :: d in runnable <==> d in g.descriptors && IsRunnable(g, d)
    ensures |runnable| == 1
  {
    hide IsRunnable;
    assert runnable == {manifest};
  }

  lemma OnlyElement(s: set<Digest>, x: Digest)
    requires |s| == 1 && x in s
    ensures s == {x}
  {
    assert |s - {x}| == 0;
  }
}
