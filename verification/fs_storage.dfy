/**
 * The stored form of the filesystem (`serializeNode` / `deserializeNode`) and the state
 * effect of `persist` / `load`. A stored node mirrors the JSON object the source builds:
 * optional `content` and `children` fields, a `type` string, and timestamps as text.
 * Timestamps are counters, written in decimal where the source writes an ISO date.
 */
module FsStorage {
  import opened Wrappers
  import opened Strings
  import opened FileTree
  import opened Filesystem

  datatype SerMeta = SerMeta(created: string, modified: string, size: nat, permissions: string, isExecutable: bool)

  /** `hasContent` / `hasChildren` say whether the optional field is present. */
  datatype SerNode = SerNode(
    name: string, kind: string,
    hasContent: bool, content: string,
    hasChildren: bool, children: seq<SerChild>,
    metadata: SerMeta)

  datatype SerChild = SerChild(key: string, node: SerNode)

  /** The data `persist` hands to the storage adapter. */
  datatype Snapshot = Snapshot(root: SerNode, cwd: string)

  function TimeToText(t: nat): (r: string)
    ensures |r| > 0 && forall i :: 0 <= i < |r| ==> IsDigit(r[i])
  {
    NatToString(t)
  }

  /** `new Date(text)`: None for text that is not a timestamp. */
  function TextToTime(s: string): (r: Option<nat>)
    ensures r.Some? <==> |s| > 0 && forall i :: 0 <= i < |s| ==> IsDigit(s[i])
  {
    if |s| > 0 && forall i :: 0 <= i < |s| ==> IsDigit(s[i]) then Some(DigitsValue(s)) else None
  }

  function SerializeMeta(m: Meta): SerMeta {
    SerMeta(TimeToText(m.created), TimeToText(m.modified), m.size, m.permissions, m.isExecutable)
  }

  function DeserializeMeta(m: SerMeta): Option<Meta> {
    match (TextToTime(m.created), TextToTime(m.modified))
    case (Some(c), Some(d)) => Some(Meta(c, d, m.size, m.permissions, m.isExecutable))
    case _ => None
  }

  /** `serializeNode`: files carry content and no children, directories the reverse. */
  function Serialize(n: Node): (r: SerNode)
    ensures r.name == n.name
    ensures r.hasContent <==> n.File?
    ensures r.hasChildren <==> n.Dir?
    ensures n.Dir? ==> |r.children| == |n.children|
  {
    match n
    case File(name, content, meta) => SerNode(name, "file", true, content, false, [], SerializeMeta(meta))
    case Dir(name, children, meta) => SerNode(name, "directory", false, "", true, SerializeAll(children), SerializeMeta(meta))
  }

  function SerializeAll(ch: seq<Child>): (r: seq<SerChild>)
    ensures |r| == |ch|
    ensures forall i :: 0 <= i < |ch| ==> r[i].key == ch[i].key
  {
    if |ch| == 0 then [] else [SerChild(ch[0].key, Serialize(ch[0].node))] + SerializeAll(ch[1..])
  }

  /** `deserializeNode`, for the stored shapes a node can take; None for any other. */
  function Deserialize(d: SerNode): Option<Node> {
    match DeserializeMeta(d.metadata)
    case None => None
    case Some(meta) =>
      if d.kind == "file" && d.hasContent && !d.hasChildren then Some(File(d.name, d.content, meta))
      else if d.kind == "directory" && d.hasChildren && !d.hasContent then
        match DeserializeAll(d.children)
        case None => None
        case Some(ch) => Some(Dir(d.name, ch, meta))
      else None
  }

  function DeserializeAll(ds: seq<SerChild>): Option<seq<Child>> {
    if |ds| == 0 then Some([])
    else match (Deserialize(ds[0].node), DeserializeAll(ds[1..]))
      case (Some(n), Some(rest)) => Some([Child(ds[0].key, n)] + rest)
      case _ => None
  }

  /** `persist` saves the serialized root and the cwd; it never changes the in-memory state. */
  function Persist(fs: FS): Snapshot {
    Snapshot(Serialize(fs.root), fs.cwd)
  }

  /** What the storage adapter's `load` produced: data, null, or a thrown error. */
  datatype LoadOutcome = Loaded(data: Snapshot) | NotFound | LoadFailed

  /** `load`: a missing record or a storage error leaves the state as it was. */
  function Load(fs: FS, outcome: LoadOutcome): (r: FS)
    ensures outcome.NotFound? || outcome.LoadFailed? ==> r == fs
  {
    match outcome
    case Loaded(data) =>
      (match Deserialize(data.root)
       case Some(root) => FS(root, data.cwd)
       case None => fs)
    case _ => fs
  }

  lemma TimeRoundTrip(t: nat)
    ensures TextToTime(TimeToText(t)) == Some(t)
  {
    NatToStringRoundTrip(t);
  }

  lemma MetaRoundTrip(m: Meta)
    ensures DeserializeMeta(SerializeMeta(m)) == Some(m)
  {
    TimeRoundTrip(m.created);
    TimeRoundTrip(m.modified);
  }

  /** deserializeNode(serializeNode(n)) reproduces n: names, kinds, contents, child order and metadata. */
  lemma {:induction false} SerializeRoundTrip(n: Node)
    ensures Deserialize(Serialize(n)) == Some(n)
  {
    MetaRoundTrip(n.meta);
    match n
    case File(_, _, _) =>
    case Dir(_, children, _) =>
      SerializeAllRoundTrip(children);
  }

  lemma {:induction false} SerializeAllRoundTrip(ch: seq<Child>)
    ensures DeserializeAll(SerializeAll(ch)) == Some(ch)
  {
    if |ch| > 0 {
      SerializeRoundTrip(ch[0].node);
      SerializeAllRoundTrip(ch[1..]);
      assert [ch[0]] + ch[1..] == ch;
    }
  }

  /** Loading what `persist` saved restores that state exactly. */
  lemma PersistLoad(fs: FS, other: FS)
    ensures Load(other, Loaded(Persist(fs))) == fs
  {
    SerializeRoundTrip(fs.root);
  }
}
