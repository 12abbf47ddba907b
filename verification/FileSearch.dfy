// fwup_search_file and fwup_open_file: from a validated device path to an open file.
module FileSearch {
  import opened Efi
  import opened DevicePath
  import opened PageMemory
  import opened FileReader

  const NAME_UNITS_MAX := 1024

  /** A handle with a file system; path is None when HandleProtocol refuses to give its device path. */
  datatype Handle = Handle(device: nat, path: Option<Path>)

  /**
   * The answers of boot services while a file is being opened.
   *  locate:  LocateDevicePath for a path: the device, and which node of the path it stopped at
   *  handles: LocateHandleBuffer for the simple file system protocol
   *  matches: LibMatchDevicePaths(path, prepared path), an arbitrary predicate
   *  volume:  HandleProtocol followed by OpenVolume on a device
   *  open:    Open on the volume of a device with a NUL-terminated name
   */
  datatype Disk = Disk(
    locate: seq<uint8> -> Option<(nat, nat)>,
    handles: Result<seq<Handle>>,
    matches: (seq<uint8>, seq<uint8>) -> bool,
    volume: nat -> Status,
    open: (nat, seq<uint8>) -> Result<Image>)

  // ---- specification of the search --------------------------------------------------------

  predicate FileNodeAt(b: seq<uint8>, node: nat) {
    node + 4 <= |b| && IsFile(b, node)
  }

  /** The index of the first media file-path node among starts. */
  function FirstFile(b: seq<uint8>, starts: seq<nat>): (r: Option<nat>)
    ensures r.Some? ==>
              && r.value < |starts| && FileNodeAt(b, starts[r.value])
              && forall k :: 0 <= k < r.value ==> !FileNodeAt(b, starts[k])
    ensures r.None? ==> forall k :: 0 <= k < |starts| ==> !FileNodeAt(b, starts[k])
  {
    if starts == [] then None
    else if FileNodeAt(b, starts[0]) then Some(0)
    else
      match FirstFile(b, starts[1..])
      case None => None
      case Some(k) => Some(k + 1)
  }

  ghost predicate MatchesAt(disk: Disk, path: Path, s: seq<nat>, prepared: seq<uint8>, k: nat) {
    k + 1 < |s| && s[k] <= |path| && disk.matches(path[s[k]..], prepared)
  }

  /** Some node suffix of path, other than its end node, matches the prepared path. */
  ghost predicate Matches(disk: Disk, path: Path, prepared: seq<uint8>) {
    var s := Starts(path, 0, |path|);
    exists k :: MatchesAt(disk, path, s, prepared, k)
  }

  ghost predicate HandleMatches(disk: Disk, h: Handle, prepared: seq<uint8>) {
    h.path.Some? && Matches(disk, h.path.value, prepared)
  }

  /** Handle i is the first one whose device path matches. */
  ghost predicate FirstMatch(disk: Disk, handles: seq<Handle>, prepared: seq<uint8>, i: nat) {
    && i < |handles|
    && HandleMatches(disk, handles[i], prepared)
    && forall j {:trigger HandleMatches(disk, handles[j], prepared)} :: 0 <= j < i ==>
         !HandleMatches(disk, handles[j], prepared)
  }

  /** The path up to the node at cut, closed by an end node. */
  function Prepared(b: seq<uint8>, at: nat, cut: nat): seq<uint8> {
    (if at <= cut <= |b| then b[at..cut] else []) + END_NODE
  }

  /** What the search yields: the device and the offset of the node that names the file. */
  ghost predicate Searched(disk: Disk, b: seq<uint8>, at: nat, n: nat, r: Result<(nat, nat)>)
    requires ValidPath(b, at, n)
  {
    var s := Starts(b, at, n);
    if disk.handles.Err? then r == Err(disk.handles.error)
    else if FirstFile(b, s).None? then r == Err(InvalidParameter)
    else
      var node := s[FirstFile(b, s).value];
      var prepared := Prepared(b, at, node);
      if exists i :: FirstMatch(disk, disk.handles.value, prepared, i)
      then exists i: nat :: FirstMatch(disk, disk.handles.value, prepared, i)
                            && r == Ok((disk.handles.value[i].device, node))
      else r == Err(Unsupported)
  }

  /** The prepared path is itself a valid path, four bytes longer than the offset of the cut. */
  lemma PreparedIsValid(b: seq<uint8>, at: nat, n: nat, k: nat)
    requires ValidPath(b, at, n) && k < |Starts(b, at, n)|
    ensures var cut := Starts(b, at, n)[k];
            && at <= cut <= |b|
            && |Prepared(b, at, cut)| == cut - at + 4
            && ValidPath(Prepared(b, at, cut), 0, cut - at + 4)
  {
    NodeInPath(b, at, n, k);
    var cut := Starts(b, at, n)[k];
    var t := b[..cut] + END_NODE;
    TruncatedIsValid(b, at, n, k, t);
    var p := Prepared(b, at, cut);
    assert forall i :: at <= i < cut + 4 ==> t[i] == p[i - at];
    PathLocal(t, at, p, 0, cut + 4 - at);
  }

  // ---- the walks ----------------------------------------------------------------------------

  /** DevicePathSize: walk to the end node of a validated path. */
  method PathLength(buf: array<uint8>, at: nat, ghost n: nat) returns (size: nat)
    requires ValidPath(buf[..], at, n)
    ensures size == n
  {
    ghost var b := buf[..];
    ghost var s := Starts(b, at, n);
    ghost var k := 0;
    var dp := at;
    NodeInPath(b, at, n, 0);
    while TypeOf(buf[dp]) != END_TYPE || buf[dp + 1] != END_ENTIRE_SUBTYPE
      invariant k < |s| && dp == s[k] && dp + 4 <= at + n
      decreases |s| - k
    {
      NodeInPath(b, at, n, k);
      k := k + 1;
      NodeInPath(b, at, n, k);
      dp := dp + (buf[dp + 2] as int + 0x100 * buf[dp + 3] as int);
    }
    NodeInPath(b, at, n, k);
    size := dp + (buf[dp + 2] as int + 0x100 * buf[dp + 3] as int) - at;
  }

  /** DuplicateDevicePath: the bytes up to and including the end node, in a new buffer, or no buffer. */
  method DuplicatePath(buf: array<uint8>, at: nat, ghost n: nat, mem: Pages) returns (copy: array?<uint8>)
    requires ValidPath(buf[..], at, n)
    modifies mem`pools, mem`failures
    ensures copy == null <==> mem.poolFull(old(mem.pools))
    ensures mem.failures == old(mem.failures) + if copy == null then 1 else 0
    ensures copy != null ==> fresh(copy) && copy[..] == buf[at..at + n]
  {
    var size := PathLength(buf, at, n);
    var ok := mem.AllocatePool();
    if !ok {
      return null;
    }
    copy := new uint8[size](i requires 0 <= i < size && at + size <= buf.Length reads buf => buf[at + i]);
  }

  /** SetDevicePathEndNode. */
  method SetEndNode(buf: array<uint8>, at: nat)
    requires at + 4 <= buf.Length
    modifies buf
    ensures buf[..] == Patch(old(buf[..]), at, END_NODE)
  {
    buf[at], buf[at + 1], buf[at + 2], buf[at + 3] := END_TYPE, END_ENTIRE_SUBTYPE, 4, 0;
  }

  /** The first while loop of fwup_search_file: find the file node of a validated path, counting nodes. */
  method FindFileNode(buf: array<uint8>, at: nat, ghost n: nat) returns (found: bool, node: nat, count: nat)
    requires ValidPath(buf[..], at, n)
    ensures var s := Starts(buf[..], at, n);
            && (found <==> FirstFile(buf[..], s).Some?)
            && (found ==> count == FirstFile(buf[..], s).value && node == s[count])
  {
    hide Starts, ValidPath;
    ghost var b := buf[..];
    ghost var s := Starts(b, at, n);
    node, count := at, 0;
    while true
      invariant count < |s| && node == s[count]
      invariant forall k :: 0 <= k < count ==> !FileNodeAt(b, s[k])
      decreases |s| - count
    {
      NodeInPath(b, at, n, count);
      if TypeOf(buf[node]) == END_TYPE && buf[node + 1] == END_ENTIRE_SUBTYPE {
        return false, node, count;
      }
      if TypeOf(buf[node]) == MEDIA_TYPE && buf[node + 1] == MEDIA_FILEPATH_SUBTYPE {
        return true, node, count;
      }
      node := node + (buf[node + 2] as int + 0x100 * buf[node + 3] as int);
      count := count + 1;
    }
  }

  /** The walk over the device path of one handle. */
  method MatchHandle(disk: Disk, path: Path, prepared: seq<uint8>) returns (found: bool)
    ensures found <==> Matches(disk, path, prepared)
  {
    hide Starts, ValidPath;
    ghost var s := Starts(path, 0, |path|);
    ghost var k := 0;
    var at := 0;
    NodeInPath(path, 0, |path|, 0);
    while TypeOf(path[at]) != END_TYPE || path[at + 1] != END_ENTIRE_SUBTYPE
      invariant k < |s| && at == s[k] && at + 4 <= |path|
      invariant forall j :: 0 <= j < k ==> !MatchesAt(disk, path, s, prepared, j)
      decreases |s| - k
    {
      NodeInPath(path, 0, |path|, k);
      if disk.matches(path[at..], prepared) {
        assert MatchesAt(disk, path, s, prepared, k);
        return true;
      }
      k := k + 1;
      NodeInPath(path, 0, |path|, k);
      at := at + (path[at + 2] as int + 0x100 * path[at + 3] as int);
    }
    NodeInPath(path, 0, |path|, k);
    return false;
  }

  /** Step over count nodes of a validated path. */
  method AdvanceNodes(buf: array<uint8>, at: nat, ghost n: nat, count: nat) returns (fileDp: nat)
    requires ValidPath(buf[..], at, n) && count < |Starts(buf[..], at, n)|
    ensures fileDp == Starts(buf[..], at, n)[count]
  {
    ghost var b := buf[..];
    fileDp := at;
    for j := 0 to count
      invariant fileDp == Starts(b, at, n)[j]
    {
      NodeInPath(b, at, n, j);
      fileDp := fileDp + (buf[fileDp + 2] as int + 0x100 * buf[fileDp + 3] as int);
    }
  }

  lemma TruncationIsPrepared(b: seq<uint8>, at: nat, n: nat, before: seq<uint8>, after: seq<uint8>, cut: nat)
    requires at + n <= |b| && cut + 4 <= n
    requires before == b[at..at + n] && after == Patch(before, cut, END_NODE)
    ensures after[..cut + 4] == Prepared(b, at, at + cut)
  {
    assert after[..cut] == b[at..at + cut];
    assert after[cut..cut + 4] == END_NODE;
  }

  /** t is s moved from at to ct. */
  ghost predicate Shifted(at: int, s: seq<nat>, ct: int, t: seq<nat>) {
    |s| == |t| && forall k :: 0 <= k < |s| ==> t[k] - ct == s[k] - at
  }

  lemma {:induction false} ShiftStarts(b: seq<uint8>, at: nat, c: seq<uint8>, ct: nat, n: nat)
    requires Agree(b, at, c, ct, n)
    requires ValidPath(b, at, n)
    ensures ValidPath(c, ct, n)
    ensures Shifted(at, Starts(b, at, n), ct, Starts(c, ct, n))
    decreases n
  {
    PathLocal(b, at, c, ct, n);
    if !IsEnd(b, at) {
      var len := NodeLength(b, at);
      ShiftStarts(b, at + len, c, ct + len, n - len);
      var s, t := Starts(b, at + len, n - len), Starts(c, ct + len, n - len);
      assert Shifted(at, [at] + s, ct, [ct] + t);
    }
  }

  lemma {:induction false} ShiftFirstFile(b: seq<uint8>, at: nat, c: seq<uint8>, ct: nat, s: seq<nat>, t: seq<nat>,
                                          n: nat)
    requires Agree(b, at, c, ct, n)
    requires Shifted(at, s, ct, t)
    requires forall k :: 0 <= k < |s| ==> at <= s[k] <= at + n - 4
    ensures FirstFile(b, s) == FirstFile(c, t)
    decreases |s|
  {
    if s != [] {
      assert FileNodeAt(b, s[0]) <==> FileNodeAt(c, t[0]);
      ShiftFirstFile(b, at, c, ct, s[1..], t[1..], n);
    }
  }

  /** A copy of a path that starts at offset 0 has the same nodes, at as much smaller offsets. */
  lemma CopyKeepsStarts(b: seq<uint8>, at: nat, n: nat, copy: seq<uint8>)
    requires ValidPath(b, at, n) && copy == b[at..at + n]
    ensures ValidPath(copy, 0, n)
    ensures var s, t := Starts(b, at, n), Starts(copy, 0, n);
            && Shifted(at, s, 0, t)
            && FirstFile(b, s) == FirstFile(copy, t)
  {
    assert copy[0..0 + n] == copy;
    AgreeIffSlices(b, at, copy, 0, n);
    ShiftStarts(b, at, copy, 0, n);
    forall k | 0 <= k < |Starts(b, at, n)|
      ensures at <= Starts(b, at, n)[k] <= at + n - 4
    {
      NodeInPath(b, at, n, k);
    }
    ShiftFirstFile(b, at, copy, 0, Starts(b, at, n), Starts(copy, 0, n), n);
  }

  /** Copy a validated path and close the copy at its file node. */
  method PreparePath(buf: array<uint8>, at: nat, ghost n: nat, mem: Pages) returns (r: Option<seq<uint8>>, count: nat)
    requires ValidPath(buf[..], at, n)
    modifies mem`pools, mem`failures
    ensures mem.failures == old(mem.failures) + if mem.poolFull(old(mem.pools)) then 1 else 0
    ensures mem.failures != old(mem.failures) ==> r == None
    ensures mem.failures == old(mem.failures) ==>
              var s := Starts(buf[..], at, n);
              match FirstFile(buf[..], s)
              case None => r == None
              case Some(k) => count == k && r == Some(Prepared(buf[..], at, s[k]))
  {
    hide Starts, ValidPath, FirstFile, Prepared;
    ghost var b := buf[..];
    ghost var s := Starts(b, at, n);
    var parent := DuplicatePath(buf, at, n, mem);
    if parent == null {
      return None, 0;
    }
    CopyKeepsStarts(b, at, n, parent[..]);
    var found, cut;
    found, cut, count := FindFileNode(parent, 0, n);
    if !found {
      return None, count;
    }
    NodeInPath(b, at, n, count);
    ghost var before := parent[..];
    SetEndNode(parent, cut);
    TruncationIsPrepared(b, at, n, before, parent[..], cut);
    return Some(parent[..cut + 4]), count;
  }

  /** The loop over the handles: the first one with a matching device path. */
  method FindHandle(disk: Disk, handles: seq<Handle>, prepared: seq<uint8>) returns (r: Option<nat>)
    ensures r.Some? ==> FirstMatch(disk, handles, prepared, r.value)
    ensures r.None? ==> forall i: nat :: !FirstMatch(disk, handles, prepared, i)
  {
    for i := 0 to |handles|
      invariant forall j :: 0 <= j < i ==> !HandleMatches(disk, handles[j], prepared)
    {
      if handles[i].path.Some? {
        var matched := MatchHandle(disk, handles[i].path.value, prepared);
        if matched {
          return Some(i);
        }
      }
    }
    return None;
  }

  /** Only when the path cannot be duplicated is the result another one. */
  method SearchFile(buf: array<uint8>, at: nat, ghost n: nat, disk: Disk, mem: Pages) returns (r: Result<(nat, nat)>)
    requires ValidPath(buf[..], at, n)
    modifies mem`pools, mem`failures
    ensures mem.failures ==
              old(mem.failures) + if disk.handles.Ok? && mem.poolFull(old(mem.pools)) then 1 else 0
    ensures if mem.failures == old(mem.failures) then Searched(disk, buf[..], at, n, r) else r == Err(InvalidParameter)
  {
    if disk.handles.Err? {
      return Err(disk.handles.error);
    }
    var prepared, count := PreparePath(buf, at, n, mem);
    if prepared.None? {
      return Err(InvalidParameter);
    }
    var i := FindHandle(disk, disk.handles.value, prepared.value);
    if i.None? {
      return Err(Unsupported);
    }
    var fileDp := AdvanceNodes(buf, at, n, count);
    return Ok((disk.handles.value[i.value].device, fileDp));
  }

  // ---- fwup_open_file ------------------------------------------------------------------------

  /** The device and node that fwup_open_file settles on for the path: LocateDevicePath's, else the search's. */
  ghost predicate Located(disk: Disk, b: seq<uint8>, at: nat, n: nat, r: Result<(nat, nat)>)
    requires ValidPath(b, at, n)
  {
    var s := Starts(b, at, n);
    match disk.locate(b[at..at + n])
    case Some((device, k)) =>
      if k < |s| then r == Ok((device, s[k])) else Searched(disk, b, at, n, r)
    case None => Searched(disk, b, at, n, r)
  }

  /** The size of a file name on the wire: UINTN subtraction of the four header bytes, which wraps. */
  function NameSize(len: nat, word: nat): nat
    requires word > 4
  {
    if len < 4 then len - 4 + word else len - 4
  }

  predicate NameSizeOk(size: nat) {
    size > 6 && size % 2 == 0 && size <= NAME_UNITS_MAX * 2
  }

  /** The name handed to Open: the body of the node and a NUL unit. */
  function FileName(b: seq<uint8>, node: nat, size: nat): seq<uint8>
    requires node + 4 + size <= |b|
  {
    b[node + 4..node + 4 + size] + [0, 0]
  }

  /** The sizes that are accepted belong to names of 4 to 1024 units, at both word sizes. */
  lemma NameSizeIff(len: nat, word: nat)
    requires IsWord(word) && len < 0x1_0000
    ensures NameSizeOk(NameSize(len, word)) <==> exists units: nat :: 4 <= units <= 1024 && len == 4 + 2 * units
  {
    if NameSizeOk(NameSize(len, word)) {
      var units := (len - 4) / 2;
      assert 4 <= units <= 1024 && len == 4 + 2 * units;
    }
  }

  /** What fwup_open_file returns for the node of a device. */
  ghost predicate Opened(disk: Disk, b: seq<uint8>, device: nat, node: nat, word: nat, r: Result<Image>)
    requires node + 4 <= |b| && word > 4
  {
    var size := NameSize(NodeLength(b, node), word);
    if !IsFile(b, node) then r == Err(Unsupported)
    else if !NameSizeOk(size) then r == Err(InvalidParameter)
    else if disk.volume(device).IsError() then r == Err(disk.volume(device))
    else node + 4 + size <= |b| && r == disk.open(device, FileName(b, node, size))
  }

  ghost predicate LocatedOpen(disk: Disk, b: seq<uint8>, at: nat, n: nat, word: nat, where: Result<(nat, nat)>,
                              r: Result<Image>)
    requires word > 4 && ValidPath(b, at, n)
  {
    && Located(disk, b, at, n, where)
    && if where.Err? then r == Err(where.error)
       else where.value.1 + 4 <= |b| && Opened(disk, b, where.value.0, where.value.1, word, r)
  }

  /** The outcome of fwup_open_file on the validated path of n bytes at at. */
  ghost predicate OpenOutcome(disk: Disk, b: seq<uint8>, at: nat, n: nat, word: nat, r: Result<Image>)
    requires word > 4
  {
    && ValidPath(b, at, n)
    && exists where :: LocatedOpen(disk, b, at, n, word, where, r)
  }

  lemma FirstMatchUnique(disk: Disk, handles: seq<Handle>, prepared: seq<uint8>, i: nat, j: nat)
    requires FirstMatch(disk, handles, prepared, i) && FirstMatch(disk, handles, prepared, j)
    ensures i == j
  {
    assert HandleMatches(disk, handles[i], prepared) && HandleMatches(disk, handles[j], prepared);
  }

  /** The search has one result: the first matching handle, and the first file node. */
  lemma SearchUnique(disk: Disk, b: seq<uint8>, at: nat, n: nat, r: Result<(nat, nat)>, r': Result<(nat, nat)>)
    requires ValidPath(b, at, n) && Searched(disk, b, at, n, r) && Searched(disk, b, at, n, r')
    ensures r == r'
  {
    if disk.handles.Ok? && FirstFile(b, Starts(b, at, n)).Some? {
      var prepared := Prepared(b, at, Starts(b, at, n)[FirstFile(b, Starts(b, at, n)).value]);
      var handles := disk.handles.value;
      forall i: nat, j: nat | FirstMatch(disk, handles, prepared, i) && FirstMatch(disk, handles, prepared, j)
        ensures i == j
      {
        FirstMatchUnique(disk, disk.handles.value, prepared, i, j);
      }
    }
  }

  lemma LocatedUnique(disk: Disk, b: seq<uint8>, at: nat, n: nat, w: Result<(nat, nat)>, w': Result<(nat, nat)>)
    requires ValidPath(b, at, n) && Located(disk, b, at, n, w) && Located(disk, b, at, n, w')
    ensures w == w'
  {
    if Searched(disk, b, at, n, w) && Searched(disk, b, at, n, w') {
      SearchUnique(disk, b, at, n, w, w');
    }
  }

  /** Opening the file of a path has one outcome. */
  lemma OpenUnique(disk: Disk, b: seq<uint8>, at: nat, n: nat, word: nat, r: Result<Image>, r': Result<Image>)
    requires word > 4 && OpenOutcome(disk, b, at, n, word, r) && OpenOutcome(disk, b, at, n, word, r')
    ensures r == r'
  {
    var where :| LocatedOpen(disk, b, at, n, word, where, r);
    var where' :| LocatedOpen(disk, b, at, n, word, where', r');
    LocatedUnique(disk, b, at, n, where, where');
  }

  /** The suffix of path from node, which is not an end node, matches. */
  predicate SuffixMatches(disk: Disk, path: seq<uint8>, node: nat, prepared: seq<uint8>) {
    && node + 4 <= |path| && !(path[node] % 0x80 == 0x7f && path[node + 1] == 0xff)
    && disk.matches(path[node..], prepared)
  }

  /** A handle matches when it has a path and some node of that, but for the end node, begins a matching suffix. */
  lemma HandleMatchesIff(disk: Disk, h: Handle, prepared: seq<uint8>)
    ensures HandleMatches(disk, h, prepared) <==>
              && h.path.Some?
              && exists node :: node in Starts(h.path.value, 0, |h.path.value|)
                                && SuffixMatches(disk, h.path.value, node, prepared)
  {
    if h.path.Some? {
      var path := h.path.value;
      var s := Starts(path, 0, |path|);
      forall k: nat | k < |s|
        ensures MatchesAt(disk, path, s, prepared, k) <==> SuffixMatches(disk, path, s[k], prepared)
      {
        NodeInPath(path, 0, |path|, k);
        NodeNumbers(path, s[k]);
      }
      if HandleMatches(disk, h, prepared) {
        var k: nat :| MatchesAt(disk, path, s, prepared, k);
        assert s[k] in s;
      }
      if node :| node in s && SuffixMatches(disk, path, node, prepared) {
        var k: nat :| k < |s| && s[k] == node;
        assert MatchesAt(disk, path, s, prepared, k);
      }
    }
  }

  /** The media file-path node at node, where the type byte may have its top bit set. */
  predicate FilePathNode(b: seq<uint8>, node: nat) {
    node + 4 <= |b| && b[node] % 0x80 == 4 && b[node + 1] == 4
  }

  /** Node k of the path is the first media file-path node. */
  ghost predicate FirstFilePathNode(b: seq<uint8>, s: seq<nat>, k: nat) {
    k < |s| && FilePathNode(b, s[k]) && forall j :: 0 <= j < k ==> !FilePathNode(b, s[j])
  }

  lemma FileNodes(b: seq<uint8>, at: nat, n: nat)
    requires ValidPath(b, at, n)
    ensures forall node :: node in Starts(b, at, n) ==>
              at <= node <= at + n - 4 && (FileNodeAt(b, node) <==> FilePathNode(b, node))
  {
    var s := Starts(b, at, n);
    forall node | node in s
      ensures at <= node <= at + n - 4 && (FileNodeAt(b, node) <==> FilePathNode(b, node))
    {
      var k :| 0 <= k < |s| && s[k] == node;
      NodeInPath(b, at, n, k);
      NodeNumbers(b, node);
    }
  }

  lemma FirstFileIs(b: seq<uint8>, s: seq<nat>, k: nat)
    requires k < |s| && FileNodeAt(b, s[k]) && forall j :: 0 <= j < k ==> !FileNodeAt(b, s[j])
    ensures FirstFile(b, s) == Some(k)
  {
  }

  /** The search without handles, and on a path that names no file. */
  lemma SearchFails(disk: Disk, b: seq<uint8>, at: nat, n: nat, r: Result<(nat, nat)>)
    requires ValidPath(b, at, n)
    ensures disk.handles.Err? ==> (Searched(disk, b, at, n, r) <==> r == Err(disk.handles.error))
    ensures disk.handles.Ok? && (forall node :: node in Starts(b, at, n) ==> !FilePathNode(b, node)) ==>
              (Searched(disk, b, at, n, r) <==> r == Err(InvalidParameter))
  {
    FileNodes(b, at, n);
  }

  /** The search on a path whose first file node is node k: the first handle that matches the path up to there. */
  lemma SearchCases(disk: Disk, b: seq<uint8>, at: nat, n: nat, k: nat, r: Result<(nat, nat)>)
    requires ValidPath(b, at, n) && disk.handles.Ok? && FirstFilePathNode(b, Starts(b, at, n), k)
    ensures var node := Starts(b, at, n)[k];
            && at <= node <= |b|
            && var prepared := b[at..node] + [0x7f, 0xff, 4, 0];
               && ((forall h :: h in disk.handles.value ==> !HandleMatches(disk, h, prepared)) ==>
                     (Searched(disk, b, at, n, r) <==> r == Err(Unsupported)))
               && forall i: nat :: FirstMatch(disk, disk.handles.value, prepared, i) ==>
                    (Searched(disk, b, at, n, r) <==> r == Ok((disk.handles.value[i].device, node)))
  {
    var s, handles := Starts(b, at, n), disk.handles.value;
    FileNodes(b, at, n);
    assert s[k] in s;
    forall j | 0 <= j < k
      ensures !FileNodeAt(b, s[j])
    {
      assert s[j] in s;
    }
    FirstFileIs(b, s, k);
    var prepared := Prepared(b, at, s[k]);
    assert prepared == b[at..s[k]] + [0x7f, 0xff, 4, 0];
    forall i: nat, j: nat | FirstMatch(disk, handles, prepared, i) && FirstMatch(disk, handles, prepared, j)
      ensures i == j
    {
      FirstMatchUnique(disk, handles, prepared, i, j);
    }
  }

  /** The file that the node of a valid path names on a device, case by case, the name written out. */
  lemma OpenCases(disk: Disk, b: seq<uint8>, at: nat, n: nat, k: nat, device: nat, word: nat, r: Result<Image>)
    requires ValidPath(b, at, n) && k < |Starts(b, at, n)| && IsWord(word)
    ensures var node := Starts(b, at, n)[k];
            && node + 4 <= |b|
            && var len := b[node + 2] as int + 0x100 * b[node + 3] as int;
               var named := exists units: nat :: 4 <= units <= 1024 && len == 4 + 2 * units;
               && 4 <= len && node + len <= |b|
               && (Opened(disk, b, device, node, word, r) <==>
                     if !FilePathNode(b, node) then r == Err(Unsupported)
                     else if !named then r == Err(InvalidParameter)
                     else if disk.volume(device).IsError() then r == Err(disk.volume(device))
                     else r == disk.open(device, b[node + 4..node + len] + [0, 0]))
  {
    NodeInPath(b, at, n, k);
    var node := Starts(b, at, n)[k];
    NodeNumbers(b, node);
    NameSizeIff(NodeLength(b, node), word);
  }

  /** Where the file is looked for: at the node at which firmware stopped, if there is one, else by the search. */
  lemma LocateCases(disk: Disk, b: seq<uint8>, at: nat, n: nat, r: Result<(nat, nat)>)
    requires ValidPath(b, at, n)
    ensures disk.locate(b[at..at + n]).None? ==> (Located(disk, b, at, n, r) <==> Searched(disk, b, at, n, r))
    ensures disk.locate(b[at..at + n]).Some? && disk.locate(b[at..at + n]).value.1 < |Starts(b, at, n)| ==>
              var (device, k) := disk.locate(b[at..at + n]).value;
              (Located(disk, b, at, n, r) <==> r == Ok((device, Starts(b, at, n)[k])))
  {
  }

  /**
   * An accepted name lies inside the path and has 4 to 1024 UTF-16 units before its NUL: the unsigned
   * subtraction lets no short node through.
   */
  lemma NameFits(b: seq<uint8>, at: nat, n: nat, k: nat, word: nat)
    requires ValidPath(b, at, n) && k < |Starts(b, at, n)| && IsWord(word) && Starts(b, at, n)[k] + 4 <= |b|
    requires NameSizeOk(NameSize(NodeLength(b, Starts(b, at, n)[k]), word))
    ensures var node := Starts(b, at, n)[k];
            var size := NameSize(NodeLength(b, node), word);
            && size == NodeLength(b, node) - 4
            && node + 4 + size <= at + n
            && |FileName(b, node, size)| % 2 == 0
            && 4 <= |FileName(b, node, size)| / 2 - 1 <= NAME_UNITS_MAX
            && FileName(b, node, size)[size..] == [0, 0]
  {
    NodeInPath(b, at, n, k);
  }

  /** Every located node is one of the nodes of the path. */
  lemma LocatedIsStart(disk: Disk, b: seq<uint8>, at: nat, n: nat, where: Result<(nat, nat)>) returns (k: nat)
    requires ValidPath(b, at, n) && Located(disk, b, at, n, where) && where.Ok?
    ensures k < |Starts(b, at, n)| && where.value.1 == Starts(b, at, n)[k] && where.value.1 + 4 <= at + n
  {
    k :| 0 <= k < |Starts(b, at, n)| && where.value.1 == Starts(b, at, n)[k];
    NodeInPath(b, at, n, k);
  }

  // ---- the outcome depends on the bytes of the path alone ------------------------------------

  /** Two buffers with the same path have the same nodes and the same first file node. */
  lemma SameNodes(b: seq<uint8>, c: seq<uint8>, at: nat, n: nat)
    requires Agree(b, at, c, at, n) && ValidPath(b, at, n)
    ensures ValidPath(c, at, n) && Starts(c, at, n) == Starts(b, at, n)
    ensures FirstFile(c, Starts(c, at, n)) == FirstFile(b, Starts(b, at, n))
  {
    ShiftStarts(b, at, c, at, n);
    var s := Starts(b, at, n);
    assert Starts(c, at, n) == s;
    forall k | 0 <= k < |s|
      ensures at <= s[k] <= at + n - 4
    {
      NodeInPath(b, at, n, k);
    }
    ShiftFirstFile(b, at, c, at, s, s, n);
  }

  lemma SamePrepared(b: seq<uint8>, c: seq<uint8>, at: nat, n: nat, k: nat)
    requires Agree(b, at, c, at, n) && ValidPath(b, at, n) && k < |Starts(b, at, n)|
    ensures Prepared(c, at, Starts(b, at, n)[k]) == Prepared(b, at, Starts(b, at, n)[k])
  {
    NodeInPath(b, at, n, k);
    var cut := Starts(b, at, n)[k];
    assert c[at..cut] == b[at..cut];
  }

  lemma SearchLocal(disk: Disk, b: seq<uint8>, c: seq<uint8>, at: nat, n: nat, r: Result<(nat, nat)>)
    requires Agree(b, at, c, at, n) && ValidPath(b, at, n) && Searched(disk, b, at, n, r)
    ensures ValidPath(c, at, n) && Searched(disk, c, at, n, r)
  {
    SameNodes(b, c, at, n);
    if FirstFile(b, Starts(b, at, n)).Some? {
      SamePrepared(b, c, at, n, FirstFile(b, Starts(b, at, n)).value);
    }
  }

  lemma LocatedLocal(disk: Disk, b: seq<uint8>, c: seq<uint8>, at: nat, n: nat, r: Result<(nat, nat)>)
    requires Agree(b, at, c, at, n) && ValidPath(b, at, n) && Located(disk, b, at, n, r)
    ensures ValidPath(c, at, n) && Located(disk, c, at, n, r)
  {
    SameNodes(b, c, at, n);
    AgreeIffSlices(b, at, c, at, n);
    if Searched(disk, b, at, n, r) {
      SearchLocal(disk, b, c, at, n, r);
    }
  }

  lemma OpenedLocal(disk: Disk, b: seq<uint8>, c: seq<uint8>, at: nat, n: nat, k: nat, device: nat, word: nat,
                    r: Result<Image>)
    requires Agree(b, at, c, at, n) && ValidPath(b, at, n) && IsWord(word) && k < |Starts(b, at, n)|
    requires Starts(b, at, n)[k] + 4 <= |b| && Opened(disk, b, device, Starts(b, at, n)[k], word, r)
    ensures Starts(b, at, n)[k] + 4 <= |c| && Opened(disk, c, device, Starts(b, at, n)[k], word, r)
  {
    NodeInPath(b, at, n, k);
    var node := Starts(b, at, n)[k];
    assert IsFile(c, node) <==> IsFile(b, node);
    assert NodeLength(c, node) == NodeLength(b, node);
    var size := NameSize(NodeLength(b, node), word);
    if NameSizeOk(size) {
      NameFits(b, at, n, k, word);
      assert c[node + 4..node + 4 + size] == b[node + 4..node + 4 + size];
    }
  }

  /** What comes of opening a file depends on nothing but the bytes of the path. */
  lemma OpenLocal(disk: Disk, b: seq<uint8>, c: seq<uint8>, at: nat, n: nat, word: nat, r: Result<Image>)
    requires Agree(b, at, c, at, n) && IsWord(word) && OpenOutcome(disk, b, at, n, word, r)
    ensures OpenOutcome(disk, c, at, n, word, r)
  {
    var where :| LocatedOpen(disk, b, at, n, word, where, r);
    LocatedLocal(disk, b, c, at, n, where);
    if where.Ok? {
      var k := LocatedIsStart(disk, b, at, n, where);
      OpenedLocal(disk, b, c, at, n, k, where.value.0, word, r);
    }
    assert LocatedOpen(disk, c, at, n, word, where, r);
  }

  /** LocateDevicePath: firmware moves the path pointer to the node it stopped at. */
  method LocatePath(buf: array<uint8>, at: nat, ghost n: nat, disk: Disk) returns (r: Option<(nat, nat)>)
    requires ValidPath(buf[..], at, n)
    ensures match disk.locate(buf[at..at + n])
            case None => r == None
            case Some((device, k)) =>
              var s := Starts(buf[..], at, n);
              r == if k < |s| then Some((device, s[k])) else None
  {
    ghost var b := buf[..];
    ghost var s := Starts(b, at, n);
    var size := PathLength(buf, at, n);
    var answer := disk.locate(buf[at..at + size]);
    if answer.None? {
      return None;
    }
    var (device, k) := answer.value;
    var node := at;
    for j := 0 to k
      invariant j < |s| && node == s[j]
    {
      NodeInPath(b, at, n, j);
      if TypeOf(buf[node]) == END_TYPE && buf[node + 1] == END_ENTIRE_SUBTYPE {
        return None;
      }
      node := node + (buf[node + 2] as int + 0x100 * buf[node + 3] as int);
    }
    return Some((device, node));
  }

  /** The rest of fwup_open_file, once the device and the node are known. */
  method OpenNode(buf: array<uint8>, at: nat, ghost n: nat, ghost k: nat, device: nat, fileDp: nat, disk: Disk,
                  word: nat)
    returns (r: Result<File>)
    requires ValidPath(buf[..], at, n) && IsWord(word) && fileDp + 4 <= buf.Length
    requires k < |Starts(buf[..], at, n)| && fileDp == Starts(buf[..], at, n)[k]
    ensures Opened(disk, buf[..], device, fileDp, word, if r.Ok? then Ok(r.value.image) else Err(r.error))
    ensures r.Ok? ==> fresh(r.value) && r.value.pos == 0
  {
    hide Starts, ValidPath;
    ghost var b := buf[..];
    NodeInPath(b, at, n, k);
    if TypeOf(buf[fileDp]) != MEDIA_TYPE || buf[fileDp + 1] != MEDIA_FILEPATH_SUBTYPE {
      return Err(Unsupported);
    }
    var sz16 := buf[fileDp + 2] as int + 0x100 * buf[fileDp + 3] as int;
    var sz := if sz16 < 4 then sz16 - 4 + word else sz16 - 4;
    if sz <= 6 || sz % 2 != 0 || sz > NAME_UNITS_MAX * 2 {
      return Err(InvalidParameter);
    }
    NameFits(b, at, n, k, word);
    var filename := new uint8[sz + 2](_ => 0);
    forall i | 0 <= i < sz {
      filename[i] := buf[fileDp + 4 + i];
    }
    var name := filename[..];
    assert name == FileName(b, fileDp, sz);
    assert buf[..] == b;
    var rc := disk.volume(device);
    if rc.IsError() {
      return Err(rc);
    }
    var image := disk.open(device, name);
    if image.Err? {
      return Err(image.error);
    }
    var file := new File(image.value);
    return Ok(file);
  }

  method OpenFile(buf: array<uint8>, at: nat, ghost n: nat, disk: Disk, word: nat, mem: Pages) returns (r: Result<File>)
    requires ValidPath(buf[..], at, n) && IsWord(word)
    modifies mem`pools, mem`failures
    ensures mem.failures >= old(mem.failures)
    ensures mem.failures == old(mem.failures) ==>
              OpenOutcome(disk, buf[..], at, n, word, if r.Ok? then Ok(r.value.image) else Err(r.error))
    ensures mem.failures != old(mem.failures) ==> r == Err(InvalidParameter)
    ensures r.Ok? ==> fresh(r.value) && r.value.pos == 0
  {
    ghost var b := buf[..];
    var device, fileDp;
    var located := LocatePath(buf, at, n, disk);
    if located.Some? {
      device, fileDp := located.value.0, located.value.1;
    } else {
      var searched := SearchFile(buf, at, n, disk, mem);
      if searched.Err? {
        if mem.failures == old(mem.failures) {
          assert LocatedOpen(disk, b, at, n, word, searched, Err(searched.error));
        }
        return Err(searched.error);
      }
      device, fileDp := searched.value.0, searched.value.1;
    }
    ghost var where: Result<(nat, nat)> := Ok((device, fileDp));
    assert Located(disk, b, at, n, where);
    ghost var k := LocatedIsStart(disk, b, at, n, where);
    r := OpenNode(buf, at, n, k, device, fileDp, disk, word);
    assert LocatedOpen(disk, b, at, n, word, where, if r.Ok? then Ok(r.value.image) else Err(r.error));
  }
}
