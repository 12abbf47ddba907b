// Device paths (sections 10.3.1 and 10.3.5.4 of the UEFI Specification 2.10): a chain of
// variable-length nodes in a byte buffer, ended by an "end entire" node.
module DevicePath {
  import opened Efi

  const END_TYPE := 0x7f
  const END_ENTIRE_SUBTYPE := 0xff
  const MEDIA_TYPE := 4
  const MEDIA_FILEPATH_SUBTYPE := 4

  /** What SetDevicePathEndNode writes. */
  const END_NODE: seq<uint8> := [END_TYPE, END_ENTIRE_SUBTYPE, 4, 0]

  /** DevicePathType masks the top bit of the type byte away. */
  function TypeOf(kind: uint8): (t: uint8)
    ensures t == kind % 0x80
  {
    if kind >= 0x80 then kind - 0x80 else kind
  }

  // Accessors for the node whose header is at offset at.

  function NodeLength(b: seq<uint8>, at: nat): nat
    requires at + 4 <= |b|
  {
    U16(b, at + 2)
  }

  predicate IsEnd(b: seq<uint8>, at: nat)
    requires at + 4 <= |b|
  {
    TypeOf(b[at]) == END_TYPE && b[at + 1] == END_ENTIRE_SUBTYPE
  }

  predicate IsFile(b: seq<uint8>, at: nat)
    requires at + 4 <= |b|
  {
    TypeOf(b[at]) == MEDIA_TYPE && b[at + 1] == MEDIA_FILEPATH_SUBTYPE
  }

  /** The n bytes from at are nodes of declared length at least 4, of which exactly the last is an end node. */
  predicate ValidPath(b: seq<uint8>, at: nat, n: nat)
    decreases n
  {
    && 4 <= n && at + n <= |b|
    && var len := NodeLength(b, at);
       && 4 <= len <= n
       && if IsEnd(b, at) then len == n else ValidPath(b, at + len, n - len)
  }

  /** The numbers behind the accessors. The top bit of the type is ignored. */
  lemma NodeNumbers(b: seq<uint8>, at: nat)
    requires at + 4 <= |b|
    ensures IsEnd(b, at) <==> b[at] % 0x80 == 0x7f && b[at + 1] == 0xff
    ensures IsFile(b, at) <==> b[at] % 0x80 == 4 && b[at + 1] == 4
    ensures NodeLength(b, at) == b[at + 2] as int + 0x100 * b[at + 3] as int
    ensures END_NODE == [0x7f, 0xff, 4, 0]
  {
  }

  /** An end node of either type byte is a path by itself. */
  lemma EndPath(kind: uint8)
    ensures ValidPath([kind, 0xff, 4, 0], 0, 4) <==> kind == 0x7f || kind == 0xff
  {
  }

  /** A path that fills its own byte string, as firmware hands them out. */
  type Path = p: seq<uint8> | ValidPath(p, 0, |p|) witness END_NODE

  /** The n bytes of b from at are those of c from ct. */
  predicate Agree(b: seq<uint8>, at: nat, c: seq<uint8>, ct: nat, n: nat) {
    && at + n <= |b| && ct + n <= |c|
    && forall i :: at <= i < at + n ==> b[i] == c[i - at + ct]
  }

  lemma AgreeIffSlices(b: seq<uint8>, at: nat, c: seq<uint8>, ct: nat, n: nat)
    requires at + n <= |b| && ct + n <= |c|
    ensures Agree(b, at, c, ct, n) <==> b[at..at + n] == c[ct..ct + n]
  {
    if b[at..at + n] == c[ct..ct + n] {
      forall i | at <= i < at + n
        ensures b[i] == c[i - at + ct]
      {
        assert b[at..at + n][i - at] == c[ct..ct + n][i - at];
      }
    }
  }

  // ---- the node grammar -------------------------------------------------------------------

  /** A node on the wire; lo and hi are the bytes of its length field. */
  datatype Node = Node(kind: uint8, subtype: uint8, lo: uint8, hi: uint8, body: seq<uint8>)
  {
    predicate End() {
      TypeOf(kind) == END_TYPE && subtype == END_ENTIRE_SUBTYPE
    }

    /** The length field counts the header and the body. */
    predicate Sized() {
      lo as int + 0x100 * hi as int == 4 + |body|
    }

    function Bytes(): seq<uint8> {
      [kind, subtype, lo, hi] + body
    }
  }

  /** A sentence of the grammar: correctly sized nodes, exactly the last one an end node. */
  predicate Sentence(ns: seq<Node>) {
    && |ns| > 0
    && ns[0].Sized()
    && if |ns| == 1 then ns[0].End() else !ns[0].End() && Sentence(ns[1..])
  }

  function Encode(ns: seq<Node>): seq<uint8> {
    if ns == [] then [] else ns[0].Bytes() + Encode(ns[1..])
  }

  /** The node at at. */
  function NodeAt(b: seq<uint8>, at: nat): Node
    requires at + 4 <= |b| && at + 4 <= at + NodeLength(b, at) <= |b|
  {
    Node(b[at], b[at + 1], b[at + 2], b[at + 3], b[at + 4..at + NodeLength(b, at)])
  }

  /** The nodes of a valid path. */
  function Decode(b: seq<uint8>, at: nat, n: nat): (ns: seq<Node>)
    requires ValidPath(b, at, n)
    ensures |ns| > 0
    decreases n
  {
    var len := NodeLength(b, at);
    if IsEnd(b, at) then [NodeAt(b, at)] else [NodeAt(b, at)] + Decode(b, at + len, n - len)
  }

  lemma SentenceCons(node: Node, ns: seq<Node>)
    requires node.Sized() && !node.End() && Sentence(ns)
    ensures Sentence([node] + ns)
    ensures Encode([node] + ns) == node.Bytes() + Encode(ns)
  {
    assert ([node] + ns)[1..] == ns;
  }

  lemma SentenceEnd(node: Node)
    requires node.Sized() && node.End()
    ensures Sentence([node]) && Encode([node]) == node.Bytes()
  {
    assert Encode([node]) == node.Bytes() + Encode([]);
  }

  /** A string whose head and tail agree with neighbouring parts of a buffer agrees with their union. */
  lemma AgreeJoin(x: seq<uint8>, y: seq<uint8>, b: seq<uint8>, at: nat)
    ensures Agree(x + y, 0, b, at, |x| + |y|) <==> Agree(x, 0, b, at, |x|) && Agree(y, 0, b, at + |x|, |y|)
  {
    var z := x + y;
    assert forall i :: 0 <= i < |x| ==> x[i] == z[i];
    assert forall i :: 0 <= i < |y| ==> y[i] == z[|x| + i];
    if Agree(x, 0, b, at, |x|) && Agree(y, 0, b, at + |x|, |y|) {
      forall i | 0 <= i < |z|
        ensures z[i] == b[i + at]
      {
        assert i < |x| || z[i] == y[i - |x|];
      }
    }
  }

  lemma HeaderAgrees(header: seq<uint8>, b: seq<uint8>, at: nat)
    requires |header| == 4 && at + 4 <= |b|
    ensures Agree(header, 0, b, at, 4) <==>
              header[0] == b[at] && header[1] == b[at + 1] && header[2] == b[at + 2] && header[3] == b[at + 3]
  {
    if Agree(header, 0, b, at, 4) {
      assert header[0] == b[at] && header[1] == b[at + 1] && header[2] == b[at + 2] && header[3] == b[at + 3];
    }
  }

  lemma NodeAgrees(b: seq<uint8>, at: nat, node: Node)
    requires node.Sized() && at + 4 + |node.body| <= |b|
    ensures Agree(node.Bytes(), 0, b, at, |node.Bytes()|) <==>
              && node == Node(b[at], b[at + 1], b[at + 2], b[at + 3], node.body)
              && b[at + 4..at + 4 + |node.body|] == node.body
  {
    var header := [node.kind, node.subtype, node.lo, node.hi];
    AgreeJoin(header, node.body, b, at);
    HeaderAgrees(header, b, at);
    AgreeIffSlices(node.body, 0, b, at + 4, |node.body|);
    assert node.body[0..0 + |node.body|] == node.body;
  }

  lemma NodeAtAgrees(b: seq<uint8>, at: nat)
    requires at + 4 <= |b| && at + 4 <= at + NodeLength(b, at) <= |b|
    ensures var node := NodeAt(b, at);
            && node.Sized() && (node.End() <==> IsEnd(b, at)) && |node.Bytes()| == NodeLength(b, at)
            && Agree(node.Bytes(), 0, b, at, |node.Bytes()|)
  {
    NodeAgrees(b, at, NodeAt(b, at));
  }

  lemma {:induction false} DecodeAgrees(b: seq<uint8>, at: nat, n: nat)
    requires ValidPath(b, at, n)
    ensures Sentence(Decode(b, at, n))
    ensures |Encode(Decode(b, at, n))| == n && Agree(Encode(Decode(b, at, n)), 0, b, at, n)
    decreases n
  {
    hide Agree, Sentence, Encode, NodeAt;
    var len, node := NodeLength(b, at), NodeAt(b, at);
    NodeAtAgrees(b, at);
    if IsEnd(b, at) {
      SentenceEnd(node);
    } else {
      DecodeAgrees(b, at + len, n - len);
      SentenceCons(node, Decode(b, at + len, n - len));
      AgreeJoin(node.Bytes(), Encode(Decode(b, at + len, n - len)), b, at);
    }
  }

  /** Decoding loses nothing: the nodes of a valid path serialise to its bytes. */
  lemma {:induction false} DecodeEncodes(b: seq<uint8>, at: nat, n: nat)
    requires ValidPath(b, at, n)
    ensures Sentence(Decode(b, at, n))
    ensures Encode(Decode(b, at, n)) == b[at..at + n]
  {
    DecodeAgrees(b, at, n);
    var e := Encode(Decode(b, at, n));
    AgreeIffSlices(e, 0, b, at, n);
    assert e[0..0 + n] == e;
  }

  /** The bytes of a node in a buffer are read back as that node. */
  lemma NodeReadBack(b: seq<uint8>, at: nat, node: Node)
    requires node.Sized() && Agree(node.Bytes(), 0, b, at, |node.Bytes()|)
    ensures at + |node.Bytes()| <= |b| && NodeLength(b, at) == |node.Bytes()| == 4 + |node.body|
    ensures NodeAt(b, at) == node && (IsEnd(b, at) <==> node.End())
  {
    NodeAgrees(b, at, node);
  }

  /** A node that is not an end node, followed by a path, is a path. */
  lemma PathCons(b: seq<uint8>, at: nat, m: nat)
    requires at + 4 <= |b| && 4 <= NodeLength(b, at) && !IsEnd(b, at)
    requires ValidPath(b, at + NodeLength(b, at), m)
    ensures var len := NodeLength(b, at);
            && at + len <= |b| && ValidPath(b, at, len + m)
            && Decode(b, at, len + m) == [NodeAt(b, at)] + Decode(b, at + len, m)
  {
  }

  lemma PathEnd(b: seq<uint8>, at: nat)
    requires at + 4 <= |b| && at + 4 <= at + NodeLength(b, at) <= |b| && IsEnd(b, at)
    ensures ValidPath(b, at, NodeLength(b, at)) && Decode(b, at, NodeLength(b, at)) == [NodeAt(b, at)]
  {
  }

  lemma {:induction false} EncodeAgrees(ns: seq<Node>, b: seq<uint8>, at: nat)
    requires Sentence(ns) && Agree(Encode(ns), 0, b, at, |Encode(ns)|)
    ensures ValidPath(b, at, |Encode(ns)|)
    ensures Decode(b, at, |Encode(ns)|) == ns
    decreases |ns|
  {
    hide Agree, ValidPath, Decode, NodeAt, NodeLength, IsEnd;
    var node, rest := ns[0], ns[1..];
    AgreeJoin(node.Bytes(), Encode(rest), b, at);
    NodeReadBack(b, at, node);
    if |ns| == 1 {
      assert Encode(rest) == [];
      PathEnd(b, at);
    } else {
      EncodeAgrees(rest, b, at + |node.Bytes()|);
      PathCons(b, at, |Encode(rest)|);
    }
  }

  /** Every sentence serialises to a valid path, wherever it stands in a buffer, and is decoded from there. */
  lemma EncodeDecodes(ns: seq<Node>, b: seq<uint8>, at: nat)
    requires Sentence(ns)
    requires at + |Encode(ns)| <= |b| && b[at..at + |Encode(ns)|] == Encode(ns)
    ensures ValidPath(b, at, |Encode(ns)|)
    ensures Decode(b, at, |Encode(ns)|) == ns
  {
    var e := Encode(ns);
    assert e[0..0 + |e|] == e;
    AgreeIffSlices(e, 0, b, at, |e|);
    EncodeAgrees(ns, b, at);
  }

  /** The validator's language is exactly the grammar. */
  lemma ValidIffSentence(b: seq<uint8>, at: nat, n: nat)
    requires at + n <= |b|
    ensures ValidPath(b, at, n) <==> exists ns :: Sentence(ns) && Encode(ns) == b[at..at + n]
  {
    if ValidPath(b, at, n) {
      DecodeEncodes(b, at, n);
    }
    if ns :| Sentence(ns) && Encode(ns) == b[at..at + n] {
      EncodeDecodes(ns, b, at);
    }
  }

  /** No valid path is a proper prefix of another one. */
  lemma {:induction false} PathUnique(b: seq<uint8>, at: nat, n: nat, m: nat)
    requires ValidPath(b, at, n) && ValidPath(b, at, m)
    ensures n == m
    decreases n
  {
    var len := NodeLength(b, at);
    if !IsEnd(b, at) {
      PathUnique(b, at + len, n - len, m - len);
    }
  }

  /** Validity depends on the bytes of the path alone. */
  lemma {:induction false} PathLocal(b: seq<uint8>, at: nat, c: seq<uint8>, ct: nat, n: nat)
    requires Agree(b, at, c, ct, n)
    requires ValidPath(b, at, n)
    ensures ValidPath(c, ct, n)
    decreases n
  {
    if !IsEnd(b, at) {
      var len := NodeLength(b, at);
      PathLocal(b, at + len, c, ct + len, n - len);
    }
  }

  // ---- fwup_dp_size ------------------------------------------------------------------------

  /** The size of the path at at when it lies within limit bytes, else -1. */
  ghost function PathSize(b: seq<uint8>, at: nat, limit: int): int {
    if exists n: nat :: n <= limit && ValidPath(b, at, n)
    then var n: nat :| n <= limit && ValidPath(b, at, n); n
    else -1
  }

  /** A path has the same size under every limit that admits it, and none under a smaller one. */
  lemma PathSizeStable(b: seq<uint8>, at: nat, n: nat, limit: int)
    requires ValidPath(b, at, n)
    ensures PathSize(b, at, limit) == if n <= limit then n else -1
  {
    forall m: nat | ValidPath(b, at, m)
      ensures m == n
    {
      PathUnique(b, at, n, m);
    }
  }

  /** What lies at or past the limit cannot change the answer. */
  lemma PathSizeLocal(b: seq<uint8>, c: seq<uint8>, at: nat, limit: nat)
    requires Agree(b, at, c, at, limit)
    ensures PathSize(b, at, limit) == PathSize(c, at, limit)
  {
    forall n: nat | n <= limit
      ensures ValidPath(b, at, n) <==> ValidPath(c, at, n)
    {
      if ValidPath(b, at, n) {
        PathLocal(b, at, c, at, n);
      }
      if ValidPath(c, at, n) {
        PathLocal(c, at, b, at, n);
      }
    }
    if n: nat :| n <= limit && ValidPath(b, at, n) {
      PathSizeStable(b, at, n, limit);
      PathSizeStable(c, at, n, limit);
    }
  }

  /** The walk itself: node by node while a node of at least four bytes fits the remaining room. */
  function Walk(b: seq<uint8>, at: nat, room: int): (size: int)
    requires at + room <= |b|
    ensures size == -1 || 0 < size <= room
    decreases room
  {
    if room < 4 then -1
    else
      var len := NodeLength(b, at);
      if len < 4 || len > room then -1
      else if IsEnd(b, at) then len
      else
        var rest := Walk(b, at + len, room - len);
        if rest == -1 then -1 else len + rest
  }

  lemma {:induction false} WalkCompletes(b: seq<uint8>, at: nat, n: nat, room: int)
    requires at + room <= |b| && n <= room && ValidPath(b, at, n)
    ensures Walk(b, at, room) == n
    decreases n
  {
    var len := NodeLength(b, at);
    if !IsEnd(b, at) {
      WalkCompletes(b, at + len, n - len, room - len);
    }
  }

  lemma {:induction false} WalkIsSound(b: seq<uint8>, at: nat, room: int)
    requires at + room <= |b| && Walk(b, at, room) != -1
    ensures ValidPath(b, at, Walk(b, at, room))
    decreases room
  {
    var len := NodeLength(b, at);
    if !IsEnd(b, at) {
      WalkIsSound(b, at + len, room - len);
    }
  }

  /** The walk finds exactly the valid path, if there is one within the room. */
  lemma {:induction false} WalkFindsPath(b: seq<uint8>, at: nat, room: int)
    requires at + room <= |b|
    ensures Walk(b, at, room) == PathSize(b, at, room)
    decreases room
  {
    if Walk(b, at, room) != -1 {
      WalkIsSound(b, at, room);
      PathSizeStable(b, at, Walk(b, at, room), room);
    } else if n: nat :| n <= room && ValidPath(b, at, n) {
      WalkCompletes(b, at, n, room);
    }
  }

  method DpSize(buf: array<uint8>, start: nat, room: int) returns (size: int)
    requires start + room <= buf.Length
    ensures size == PathSize(buf[..], start, room)
  {
    var dp, limit := start, room;
    ghost var b := buf[..];
    WalkFindsPath(b, start, room);
    size := 0;
    while true
      invariant size >= 0 && dp == start + size && limit == room - size
      invariant dp + limit <= |b|
      invariant Walk(b, start, room) == if Walk(b, dp, limit) == -1 then -1 else size + Walk(b, dp, limit)
      decreases limit
    {
      if limit < 4 {
        break;
      }
      var len := buf[dp + 2] as int + 0x100 * buf[dp + 3] as int;
      assert len == NodeLength(b, dp);
      if len < 4 || len > limit {
        break;
      }
      limit := limit - len;
      size := size + len;
      if TypeOf(buf[dp]) == END_TYPE && buf[dp + 1] == END_ENTIRE_SUBTYPE {
        return;
      }
      dp := dp + len;
    }
    size := -1;
  }

  // ---- node starts of a valid path ----------------------------------------------------------

  /** The offsets of the nodes of a valid path, in order. */
  function Starts(b: seq<uint8>, at: nat, n: nat): (s: seq<nat>)
    requires ValidPath(b, at, n)
    ensures |s| > 0 && s[0] == at
    decreases n
  {
    var len := NodeLength(b, at);
    if IsEnd(b, at) then [at] else [at] + Starts(b, at + len, n - len)
  }

  /** Where node k of a valid path lies, and that stepping over it reaches node k + 1. */
  lemma {:induction false} NodeInPath(b: seq<uint8>, at: nat, n: nat, k: nat)
    requires ValidPath(b, at, n) && k < |Starts(b, at, n)|
    ensures var s := Starts(b, at, n);
            && at <= s[k] <= at + n - 4 <= |b| - 4
            && 4 <= NodeLength(b, s[k]) <= at + n - s[k]
            && (k + 1 < |s| <==> !IsEnd(b, s[k]))
            && (k + 1 < |s| ==> s[k + 1] == s[k] + NodeLength(b, s[k]))
            && (k + 1 == |s| ==> at + n == s[k] + NodeLength(b, s[k]))
    decreases n
  {
    if k > 0 {
      var len := NodeLength(b, at);
      NodeInPath(b, at + len, n - len, k - 1);
      assert Starts(b, at, n)[k] == Starts(b, at + len, n - len)[k - 1];
    }
  }

  /** Every suffix that begins at a node is itself a valid path. */
  lemma {:induction false} SuffixValid(b: seq<uint8>, at: nat, n: nat, k: nat)
    requires ValidPath(b, at, n) && k < |Starts(b, at, n)|
    ensures var node := Starts(b, at, n)[k];
            at <= node <= at + n && ValidPath(b, node, at + n - node)
    decreases n
  {
    if k > 0 {
      var len := NodeLength(b, at);
      SuffixValid(b, at + len, n - len, k - 1);
      assert Starts(b, at, n)[k] == Starts(b, at + len, n - len)[k - 1];
    }
  }

  /** t agrees with b from at to cut, where it has an end node. */
  predicate IsTruncation(b: seq<uint8>, at: nat, cut: nat, t: seq<uint8>) {
    && at <= cut && cut + 4 <= |t|
    && Agree(b, at, t, at, cut - at)
    && t[cut] == END_TYPE && t[cut + 1] == END_ENTIRE_SUBTYPE && t[cut + 2] == 4 && t[cut + 3] == 0
  }

  /** Cutting a path at a node and closing it with an end node gives a valid path. */
  lemma {:induction false} TruncatedIsValid(b: seq<uint8>, at: nat, n: nat, k: nat, t: seq<uint8>)
    requires ValidPath(b, at, n) && k < |Starts(b, at, n)|
    requires IsTruncation(b, at, Starts(b, at, n)[k], t)
    ensures ValidPath(t, at, Starts(b, at, n)[k] + 4 - at)
    decreases n
  {
    if k > 0 {
      var len := NodeLength(b, at);
      NodeInPath(b, at + len, n - len, k - 1);
      TruncatedIsValid(b, at + len, n - len, k - 1, t);
    }
  }
}
