/**
 Reads of the SMB client through its read-ahead buffer: one buffer shared by all open files,
 a server that may drop the connection, and handles whose slots are used again.
 */
module SmbCache {

  type Byte = b: int | 0 <= b < 256

  type Files = map<nat, seq<Byte>>

  const READ_AHEAD_SIZE: nat := 8192
  const MAX_RECV_SIZE: nat := 8192
  const MAX_XMIT_SIZE: nat := 65535
  const MAX_HANDLES: nat := 32
  const NULL: int := -1
  const EIO := 5
  const EBADF := 9
  const EACCES := 13
  const EINVAL := 22
  const ENOTCONN := 107
  const EMFILE := 24
  const ECONNRESET := 104

  type Slot = h: nat | h < MAX_HANDLES

  /** An open file, or a free slot. `size` is the length the server reported last; a seek can make `pos`
      negative. */
  datatype Handle = Handle(used: bool, name: nat, size: nat, pos: int, writable: bool)

  const FREE := Handle(false, 0, 0, 0, false)

  datatype ReadAhead = ReadAhead(fh: int, offset: nat, data: seq<Byte>, seqFh: int, seqNext: int)
  {
    predicate Hit(fh: nat, pos: int) {
      this.fh == fh && offset <= pos < offset + |data|
    }

    /** It begins at `pos` and reaches as far as a file of length `size` and its own size allow. */
    predicate Filled(fh: nat, pos: int, size: nat) {
      && this.fh == fh && offset == pos
      && |data| == if size - pos > 8192 then 8192 else size - pos
    }

    /** How many of `n` bytes at `pos` it holds. */
    function Held(fh: nat, pos: int, n: int): (held: nat)
      ensures n <= 0 ==> held == 0
    {
      if n <= 0 || !Hit(fh, pos) then 0 else if pos + n <= offset + |data| then n else offset + |data| - pos
    }

    /** It holds all `n` bytes at `pos`. */
    predicate Covers(fh: nat, pos: int, n: int) {
      0 < n && this.fh == fh && offset <= pos && pos + n <= offset + |data|
    }
  }

  const EMPTY := ReadAhead(NULL, 0, [], NULL, 0)

  /** `data` laid over `file` at `pos`; a gap before it is filled with zeros. */
  function Overlay(file: seq<Byte>, pos: nat, data: seq<Byte>): (r: seq<Byte>)
    ensures |r| == (if data == [] || pos + |data| <= |file| then |file| else pos + |data|)
    ensures forall i :: 0 <= i < |data| ==> r[pos + i] == data[i]
    ensures forall i :: 0 <= i < |file| && !(pos <= i < pos + |data|) ==> r[i] == file[i]
    ensures forall i :: |file| <= i < |r| && !(pos <= i < pos + |data|) ==> r[i] == 0
  {
    if data == [] then file
    else if |file| < pos then file + seq(pos - |file|, _ => 0) + data
    else file[..pos] + data + (if pos + |data| <= |file| then file[pos + |data|..] else [])
  }

  /** Laying a piece of `data` over what has its first `j` bytes gives what has its first `k` bytes, or is the
      same. */
  lemma OverlayOn(file: seq<Byte>, pos: nat, data: seq<Byte>, j: nat, i: nat, k: nat)
    requires i <= j <= |data| && i <= k <= |data|
    ensures Overlay(Overlay(file, pos, data[..j]), pos + i, data[i..k])
                == Overlay(file, pos, data[..if j < k then k else j])
  {
    hide Overlay;
    var a, b := Overlay(Overlay(file, pos, data[..j]), pos + i, data[i..k]),
        Overlay(file, pos, data[..if j < k then k else j]);
    assert |a| == |b|;
    forall x | 0 <= x < |a|
      ensures a[x] == b[x]
    {
      var m := Overlay(file, pos, data[..j]);
      if pos + i <= x < pos + k {
        assert a[x] == data[i..k][x - (pos + i)] && b[x] == data[..if j < k then k else j][x - pos];
      } else if pos <= x < pos + j {
        assert a[x] == m[x] == data[..j][x - pos];
        assert b[x] == data[..if j < k then k else j][x - pos];
      } else if x < |file| {
        assert a[x] == m[x] == file[x] && b[x] == file[x];
      }
    }
  }

  ghost predicate Slice(file: seq<Byte>, pos: int, data: seq<Byte>) {
    0 <= pos && pos + |data| <= |file| && data == file[pos..pos + |data|]
  }

  lemma SliceMore(file: seq<Byte>, pos: int, a: seq<Byte>, b: seq<Byte>)
    requires Slice(file, pos, a) && Slice(file, pos + |a|, b)
    ensures Slice(file, pos, a + b)
  {
    assert file[pos..pos + |a| + |b|] == file[pos..pos + |a|] + file[pos + |a|..pos + |a| + |b|];
  }

  lemma JoinParts(file: seq<Byte>, pos: int, data: seq<Byte>, part: seq<Byte>)
    ensures (data == [] || Slice(file, pos, data)) && (part == [] || Slice(file, pos + |data|, part))
            && data + part != [] ==>
              Slice(file, pos, data + part)
    ensures (data == [] ==> data + part == part) && (part == [] ==> data + part == data)
  {
    assert (data == [] ==> data + part == part) && (part == [] ==> data + part == data);
    if data != [] && part != [] && Slice(file, pos, data) && Slice(file, pos + |data|, part) {
      SliceMore(file, pos, data, part);
    }
  }

  lemma SlicePart(file: seq<Byte>, offset: int, data: seq<Byte>, i: nat, n: nat)
    requires Slice(file, offset, data) && i + n <= |data|
    ensures Slice(file, offset + i, data[i..i + n])
  {
    var p, q := data[i..i + n], file[offset + i..offset + i + n];
    assert forall k :: 0 <= k < n ==> p[k] == data[i + k] && q[k] == file[offset + i + k];
  }

  lemma CutTwice(data: seq<Byte>, i: nat, n: nat)
    requires i + n <= |data|
    ensures data[i..i + n] == data[i..][..n]
  {
  }

  // ----- what holds of a client -----

  /** Open handles name files, and what is buffered is something, for an open handle. */
  ghost predicate Sound(server: Files, handles: seq<Handle>, ahead: ReadAhead) {
    && |handles| == MAX_HANDLES && (forall h :: 0 <= h < |handles| && handles[h].used ==> handles[h].name in server)
    && (ahead.fh != NULL ==> 0 <= ahead.fh < |handles| && handles[ahead.fh].used && ahead.data != [])
  }

  /** What is buffered is what the file holds. */
  ghost predicate Coherent(server: Files, handles: seq<Handle>, ahead: ReadAhead)
    requires Sound(server, handles, ahead)
  {
    ahead.fh != NULL ==> Slice(server[handles[ahead.fh].name], ahead.offset, ahead.data)
  }

  /** The handles are as before but for the lengths they know and the position of `fh`. */
  ghost predicate OnlyMoved(handles: seq<Handle>, handles': seq<Handle>, fh: nat, step: int) {
    && |handles'| == |handles|
    && forall h :: 0 <= h < |handles| ==>
         handles'[h] == handles[h].(size := handles'[h].size, pos := if h == fh then handles[h].pos + step
             else handles[h].pos)
  }

  /** The lengths that open handles know are right. */
  ghost predicate Exact(server: Files, handles: seq<Handle>) {
    forall h :: 0 <= h < |handles| && handles[h].used ==>
      handles[h].name in server && handles[h].size == |server[handles[h].name]|
  }

  /** A handle after `r` bytes were written at its position. */
  function Written(h: Handle, r: nat): Handle {
    h.(pos := h.pos + r, size := if h.pos + r > h.size then h.pos + r else h.size)
  }

  lemma MovedTwice(a: seq<Handle>, b: seq<Handle>, c: seq<Handle>, fh: nat, step: int)
    requires OnlyMoved(a, b, fh, 0) && OnlyMoved(b, c, fh, step)
    ensures OnlyMoved(a, c, fh, step)
  {
    forall h | 0 <= h < |a|
      ensures c[h] == a[h].(size := c[h].size, pos := if h == fh then a[h].pos + step else a[h].pos)
    {
      assert b[h] == a[h].(size := b[h].size, pos := if h == fh then a[h].pos + 0 else a[h].pos);
    }
  }

  /** Each handle knows the length it knew before, or the one that its file has. */
  ghost predicate Told(server: Files, handles: seq<Handle>, handles': seq<Handle>) {
    && |handles'| == |handles|
    && forall h :: 0 <= h < |handles| ==>
         || handles'[h].size == handles[h].size
         || (handles[h].used && handles[h].name in server && handles'[h].size == |server[handles[h].name]|)
  }

  /** Nothing about the handles changed but what they know of lengths. */
  ghost predicate Refreshed(server: Files, handles: seq<Handle>, handles': seq<Handle>) {
    OnlyMoved(handles, handles', 0, 0) && Told(server, handles, handles')
  }

  lemma RefreshedTwice(server: Files, a: seq<Handle>, b: seq<Handle>, c: seq<Handle>, fh: nat)
    requires Refreshed(server, a, b) && Refreshed(server, b, c) && fh < |a|
    ensures Refreshed(server, a, c) && |b| == |a| == |c|
    ensures b[fh] == a[fh].(size := b[fh].size) && c[fh] == b[fh].(size := c[fh].size)
  {
    MovedTwice(a, b, c, 0, 0);
    forall h | 0 <= h < |a|
      ensures c[h].size == a[h].size
              || (a[h].used && a[h].name in server && c[h].size == |server[a[h].name]|)
    {
      assert b[h] == a[h].(size := b[h].size, pos := if h == 0 then a[h].pos + 0 else a[h].pos);
    }
  }

  lemma RefreshedMoves(server: Files, a: seq<Handle>, b: seq<Handle>, fh: nat)
    requires Refreshed(server, a, b) && fh < |a| && a[fh].used && a[fh].name in server
    ensures OnlyMoved(a, b, 0, 0) && (b[fh].size == a[fh].size || b[fh].size == |server[a[fh].name]|)
  {
  }

  lemma RefreshedSelf(server: Files, a: seq<Handle>)
    ensures Refreshed(server, a, a)
  {
  }

  lemma RefreshedKeeps(server: Files, handles: seq<Handle>, handles': seq<Handle>, ahead: ReadAhead)
    requires Sound(server, handles, ahead) && Refreshed(server, handles, handles')
    ensures Sound(server, handles', ahead) && (Coherent(server, handles', ahead) <==> Coherent(server, handles, ahead))
  {
    MovedKeeps(server, handles, handles', ahead, 0, 0);
  }

  /** A handle moved after lengths were told anew. */
  lemma ToldMoved(server: Files, a: seq<Handle>, b: seq<Handle>, fh: nat, r: int)
    requires Refreshed(server, a, b) && fh < |a|
    ensures
      var c := b[fh := b[fh].(pos := b[fh].pos + r)];
      OnlyMoved(a, c, fh, r) && Told(server, a, c) && (Exact(server, a) ==> Exact(server, b) && Exact(server, c))
    ensures OnlyMoved(b, b[fh := b[fh].(pos := b[fh].pos + r)], fh, r)
    ensures b[fh].pos == a[fh].pos && b[fh].used == a[fh].used && b[fh].name == a[fh].name
  {
  }

  /** A read of `n` bytes at `pos` stays within the length a handle knows, and that within its file. */
  ghost predicate Within(server: Files, h: Handle, pos: int, n: int) {
    0 <= pos && pos + n <= h.size && h.name in server && h.size <= |server[h.name]|
  }

  /** What is left of a read after `step` bytes of it stays within them too. */
  lemma WithinStill(server: Files, a: seq<Handle>, b: seq<Handle>, fh: nat, pos: int, n: int, step: nat)
    requires Refreshed(server, a, b) && fh < |a| && fh < |b|
    ensures Within(server, a[fh], pos, n) ==> Within(server, b[fh], pos + step, n - step)
  {
  }

  /** How much a read of `n` bytes is to deliver: what lies between the position and the length known. */
  function Share(h: Handle, n: nat): nat {
    if h.pos + n <= h.size then n else if h.pos <= h.size then h.size - h.pos else 0
  }

  lemma UnmovedSelf(server: Files, a: seq<Handle>, fh: nat)
    ensures OnlyMoved(a, a, fh, 0) && Told(server, a, a)
  {
  }

  /** Lengths and positions do not matter to what is buffered. */
  lemma MovedKeeps(server: Files, handles: seq<Handle>, handles': seq<Handle>, ahead: ReadAhead, fh: nat, step: int)
    requires Sound(server, handles, ahead) && OnlyMoved(handles, handles', fh, step)
    ensures Sound(server, handles', ahead) && (Coherent(server, handles', ahead) <==> Coherent(server, handles, ahead))
  {
  }

  /** A handle was moved to where a seek leads, unless that is past the length it knows. */
  predicate Sought(handles: seq<Handle>, fh: nat, offset: int, whence: nat, r: int, handles': seq<Handle>)
    requires fh < |handles|
  {
    var h := handles[fh];
    var to := if whence == 1 then h.pos + offset else if whence == 0 then offset else h.size;
    if whence <= 2 && to <= h.size then r == to && handles' == handles[fh := h.(pos := to)]
    else r == -EINVAL && handles' == handles
  }

  /** The buffer without what it holds for handle `fh`, or without anything. */
  function Forget(a: ReadAhead, fh: int): ReadAhead {
    var b := if fh == NULL || a.fh == fh then a.(fh := NULL, offset := 0, data := []) else a;
    if fh == NULL || a.seqFh == fh then b.(seqFh := NULL, seqNext := 0) else b
  }

  /** What opening a file does to it on the server. */
  function Opened(server: Files, name: nat, trunc: bool): Files {
    if trunc || name !in server then server[name := []] else server
  }

  /** A truncating open of the file for which something is buffered. */
  predicate Truncates(handles: seq<Handle>, ahead: ReadAhead, name: nat, trunc: bool) {
    trunc && 0 <= ahead.fh < |handles| && handles[ahead.fh].name == name
  }

  lemma OpenedKeeps(server: Files, handles: seq<Handle>, ahead: ReadAhead, name: nat, trunc: bool, fh: nat, h: Handle)
    requires Sound(server, handles, ahead) && fh < |handles| && !handles[fh].used
    requires h == handles[fh] || h.name == name
    ensures
      var server', handles', ahead' := Opened(server, name, trunc), handles[fh := h], Forget(ahead, fh);
      && Sound(server', handles', ahead')
      && (Coherent(server', handles', ahead') <==>
          Coherent(server, handles, ahead) && !Truncates(handles, ahead, name, trunc))
  {
    if ahead.fh != NULL && Truncates(handles, ahead, name, trunc) {
      assert Opened(server, name, trunc)[name] == [];
    }
  }

  lemma ForgetKeeps(server: Files, handles: seq<Handle>, ahead: ReadAhead, fh: int)
    requires Sound(server, handles, ahead)
    ensures Sound(server, handles, Forget(ahead, fh))
    ensures Coherent(server, handles, ahead) ==> Coherent(server, handles, Forget(ahead, fh))
  {
  }

  /** A client at some moment. */
  datatype Snap = Snap(server: Files, handles: seq<Handle>, ahead: ReadAhead, connected: bool, mishaps: nat)
  {
    ghost predicate Valid() { Sound(server, handles, ahead) }

    ghost predicate Fresh()
      requires Valid()
    {
      Coherent(server, handles, ahead)
    }
  }

  class Client {
    var server: Files                  // contents of the files on the server
    var handles: seq<Handle>
    var ahead: ReadAhead
    var outages: nat                   // how often the connection is still going to break
    var connected: bool                // false once a session could not be restored
    ghost var mishaps: nat             // requests answered with less than was asked for, and sessions not restored

    ghost predicate Valid()
      reads this
    {
      Sound(server, handles, ahead)
    }

    ghost predicate Fresh()
      requires Valid()
      reads this
    {
      Coherent(server, handles, ahead)
    }

    ghost function Now(): Snap
      reads this
    {
      Snap(server, handles, ahead, connected, mishaps)
    }

    constructor (server: Files, outages: nat)
      ensures Valid() && Fresh() && this.server == server && ahead == EMPTY && connected && mishaps == 0
      ensures handles == seq(MAX_HANDLES, _ => FREE)
    {
      this.server := server;
      this.handles := seq(MAX_HANDLES, _ => FREE);
      this.ahead := EMPTY;
      this.outages := outages;
      this.connected := true;
      this.mishaps := 0;
    }

    /** Forgets what is buffered for a handle, or everything. */
    method Invalidate(fh: int)
      modifies this`ahead
      ensures ahead == Forget(old(ahead), fh) && (fh == NULL ==> ahead == EMPTY)
    {
      if fh == NULL || ahead.fh == fh { ahead := ahead.(fh := NULL, offset := 0, data := []); }
      if fh == NULL || ahead.seqFh == fh { ahead := ahead.(seqFh := NULL, seqNext := 0); }
    }

    // ----- the server -----

    /** One request: some bytes of the file, none, or an error. Positive results are the file's bytes. It is a mishap
        unless all was sent that was asked for, or all that the file has, or the connection was lost. */
    method ReadAndX(name: nat, pos: int, n: nat) returns (r: int, data: seq<Byte>, transport: bool)
      requires name in server && n <= 8192
      modifies this`mishaps
      ensures mishaps == old(mishaps) + if transport || r == n || (r >= 0 && pos + r >= |server[name]|) then 0 else 1
      ensures r <= n && (r > 0 ==> |data| == r && Slice(server[name], pos, data))
      ensures transport ==> r < 0 && outages > 0
    {
      var got: int, broken: bool := *, *;
      data, transport := [], broken && outages > 0;
      if transport { return -ECONNRESET, data, transport; }
      if 0 < got <= n && 0 <= pos && pos + got <= |server[name]| {
        data := server[name][pos..pos + got];
        if got != n && pos + got < |server[name]| { mishaps := mishaps + 1; }
        return got, data, transport;
      }
      r := if got < 0 then got else 0;
      if r != n && (r < 0 || pos + r < |server[name]|) { mishaps := mishaps + 1; }
    }

    /** Reads in requests of limited size: all that was asked for, or nothing. */
    method ReadFile(name: nat, pos: int, n: nat) returns (r: int, data: seq<Byte>, transport: bool)
      requires name in server
      modifies this`mishaps
      ensures mishaps >= old(mishaps)
      ensures mishaps == old(mishaps) && !transport && 0 <= pos && pos + n <= |server[name]| ==> r == n
      ensures r == n || r <= 0
      ensures r == n > 0 ==> |data| == n && Slice(server[name], pos, data)
      ensures transport ==> r < 0 && outages > 0
    {
      data, transport := [], false;
      while |data| < n
        invariant |data| <= n && (|data| > 0 ==> Slice(server[name], pos, data)) && !transport
        invariant mishaps >= old(mishaps)
        decreases n - |data|
      {
        var left := n - |data|;
        var part: seq<Byte>;
        r, part, transport := ReadAndX(name, pos + |data|, if left > MAX_RECV_SIZE then MAX_RECV_SIZE else left);
        if r <= 0 { return; }
        if |data| > 0 { SliceMore(server[name], pos, data, part); }
        assert data == [] ==> data + part == part;
        data := data + part;
      }
      r := n;
    }

    method RestoreConnection() returns (ok: bool)
      modifies this`connected, this`mishaps
      ensures connected == ok && mishaps == old(mishaps) + if ok then 0 else 1
    {
      ok := *;
      connected := ok;
      if !ok { mishaps := mishaps + 1; }
    }

    /** A new session: everything buffered is forgotten and every file is opened again under its name, which
        tells its length anew. */
    method Reconnect() returns (ok: bool)
      requires Valid() && outages > 0
      modifies this`ahead, this`handles, this`outages, this`connected, this`mishaps
      ensures Valid() && Fresh() && outages < old(outages) && ahead == EMPTY
      ensures Refreshed(server, old(handles), handles) && (ok ==> Exact(server, handles))
      ensures mishaps == old(mishaps) + (if ok then 0 else 1) && connected == ok
    {
      Invalidate(NULL);
      outages := outages - 1;
      ok := RestoreConnection();
      if !ok { return; }
      for i := 0 to |handles|
        invariant Valid() && ahead == EMPTY && outages == old(outages) - 1
        invariant Refreshed(server, old(handles), handles) && connected && mishaps == old(mishaps)
        invariant forall h :: 0 <= h < i && handles[h].used ==> handles[h].size == |server[handles[h].name]|
      {
        if handles[i].used { handles := handles[i := handles[i].(size := |server[handles[i].name]|)]; }
      }
    }

    method ReadFileWithReconnect(fh: Slot, pos: int, n: nat) returns (r: int, data: seq<Byte>)
      requires Valid() && handles[fh].used && connected
      modifies this`ahead, this`handles, this`outages, this`connected, this`mishaps
      ensures Valid() && handles[fh].used && handles[fh].name == old(handles)[fh].name
      ensures Refreshed(server, old(handles), handles) && mishaps >= old(mishaps) && outages <= old(outages)
      ensures r == n || r <= 0
      ensures r == n > 0 ==> |data| == n && Slice(server[handles[fh].name], pos, data)
      ensures ahead == old(ahead) || ahead == EMPTY
      ensures outages == old(outages) ==> handles == old(handles) && ahead == old(ahead)
      ensures mishaps == old(mishaps) || r >= 0 ==> connected
      ensures mishaps == old(mishaps) && 0 <= pos && pos + n <= |server[old(handles)[fh].name]| ==> r == n
    {
      while true
        invariant Refreshed(server, old(handles), handles) && mishaps >= old(mishaps) && outages <= old(outages)
        invariant outages == old(outages) ==> handles == old(handles) && ahead == old(ahead)
        invariant connected
        invariant Valid()
        invariant ahead == old(ahead) || ahead == EMPTY
        decreases outages
      {
        var transport: bool;
        r, data, transport := ReadFile(handles[fh].name, pos, n);
        if !transport { return; }
        ghost var was := handles;
        var ok := Reconnect();
        RefreshedTwice(server, old(handles), was, handles, fh);
        if !ok { return; }
      }
    }

    // ----- reading -----

    /** A short read, within the length known, of what is not buffered. */
    predicate Ahead(fh: Slot, n: int)
      requires |handles| == MAX_HANDLES
      reads this
    {
      0 < n < READ_AHEAD_SIZE && !ahead.Hit(fh, handles[fh].pos) && handles[fh].pos + n <= handles[fh].size
    }

    method FromBuffer(fh: Slot, pos: int, n: nat) returns (part: seq<Byte>)
      requires Valid() && ahead.Hit(fh, pos) && n > 0
      ensures 0 < |part| <= n && pos + |part| <= ahead.offset + |ahead.data|
      ensures Fresh() ==> Slice(server[handles[fh].name], pos, part)
      ensures |part| == ahead.Held(fh, pos, n)
      ensures part == ahead.data[pos - ahead.offset..][..|part|]
    {
      hide Slice;
      var i := pos - ahead.offset;
      var available := |ahead.data| - i;
      if available > n { available := n; }
      if Slice(server[handles[fh].name], ahead.offset, ahead.data) {
        SlicePart(server[handles[fh].name], ahead.offset, ahead.data, i, available);
      }
      part := ahead.data[i..i + available];
      CutTwice(ahead.data, i, available);
    }

    /** One round of a cached read at `pos`: some bytes, or a filled buffer and none, or the end of the read. */
    method ReadSome(fh: Slot, pos: int, left: nat, allow: bool) returns (stop: bool, r: int, part: seq<Byte>)
      requires Valid() && handles[fh].used && connected && 0 < left
      modifies this`ahead, this`handles, this`outages, this`connected, this`mishaps
      ensures Valid() && (old(Fresh()) ==> Fresh()) && |part| <= left
      ensures Refreshed(server, old(handles), handles) && mishaps >= old(mishaps) && outages <= old(outages)
      ensures outages == old(outages) ==> handles == old(handles)
      ensures mishaps == old(mishaps) || !stop ==> connected
      ensures mishaps == old(mishaps) && Within(server, old(handles)[fh], pos, left) ==> !stop
      ensures part != [] && old(Fresh()) ==> Slice(server[handles[fh].name], pos, part)
      ensures if stop then r <= 0 && part == [] else part == [] ==> ahead.Hit(fh, pos) && !old(ahead.Hit(fh, pos))
      ensures old(ahead.Hit(fh, pos)) ==> !stop && ahead == old(ahead) && handles == old(handles)
      ensures old(ahead.Hit(fh, pos)) ==> |part| == old(ahead).Held(fh, pos, left)
      ensures old(ahead.Covers(fh, pos, left)) ==>
                |part| == left && part == old(ahead).data[pos - old(ahead).offset..][..left]
      ensures !allow && old(ahead).fh == NULL ==> ahead.fh == NULL
      ensures !stop && allow && left < READ_AHEAD_SIZE && !old(ahead.Hit(fh, pos)) ==>
                part == [] && ahead.Filled(fh, pos, old(handles)[fh].size)
    {
      hide Slice;
      stop, r, part := false, 0, [];
      if ahead.Hit(fh, pos) {
        part := FromBuffer(fh, pos, left);
      } else if !allow || READ_AHEAD_SIZE <= left {
        r, part := ReadFileWithReconnect(fh, pos, left);
        RefreshedKeeps(server, old(handles), handles, ahead);
        if r <= 0 { stop, part := true, []; }
      } else {
        var available: int := handles[fh].size - pos;
        if available > READ_AHEAD_SIZE { available := READ_AHEAD_SIZE; }
        if available <= 0 { return true, r, part; }
        var filled;
        filled, r := Fill(fh, pos, available);
        stop := !filled;
      }
    }

    /** Serves a read from the buffer as far as that reaches, and from the server. It ends: a filled buffer
        serves the next round. */
    method ReadCached(fh: Slot, n: int, allow: bool) returns (r: int, data: seq<Byte>)
      requires Valid() && handles[fh].used && connected
      modifies this`ahead, this`handles, this`outages, this`connected, this`mishaps
      ensures Valid() && handles[fh].used && handles[fh].name == old(handles)[fh].name && (old(Fresh()) ==> Fresh())
      ensures r > 0 ==> r == |data| <= n && (old(Fresh()) ==> Slice(server[handles[fh].name], handles[fh].pos, data))
      ensures old(ahead.Hit(fh, handles[fh].pos)) ==> r >= old(ahead).Held(fh, old(handles)[fh].pos, n)
      ensures old(ahead.Covers(fh, handles[fh].pos, n)) ==>
                r == n && data == old(ahead).data[old(handles)[fh].pos - old(ahead).offset..][..n]
      ensures !allow && old(ahead).fh == NULL ==> ahead.fh == NULL
      ensures allow && old(Ahead(fh, n)) && r > 0 ==>
                r == n && ahead.Filled(fh, old(handles)[fh].pos, old(handles)[fh].size)
      ensures Refreshed(server, old(handles), handles) && mishaps >= old(mishaps) && outages <= old(outages)
      ensures outages == old(outages) ==> handles == old(handles)
      ensures mishaps == old(mishaps) ==> connected
      ensures mishaps == old(mishaps) && Within(server, old(handles)[fh], old(handles)[fh].pos, n) ==>
                r == if n < 0 then 0 else n
    {
      hide Slice, Coherent, Refreshed, Within, ReadAhead.Held;
      RefreshedSelf(server, handles);
      var pos := handles[fh].pos;
      ghost var h0, a0 := handles, ahead;
      ghost var fills, hit, covered := allow && Ahead(fh, n), ahead.Hit(fh, pos), ahead.Covers(fh, pos, n);
      ghost var file, fresh0, p0 := server[handles[fh].name], Fresh(), pos;
      data := [];
      while |data| < n
        invariant Valid() && connected && (fresh0 ==> Fresh()) && mishaps >= old(mishaps) && outages <= old(outages)
        invariant Refreshed(server, h0, handles) && (outages == old(outages) ==> handles == h0)
        invariant !allow && a0.fh == NULL ==> ahead.fh == NULL
        invariant handles[fh].used && handles[fh].name == h0[fh].name && handles[fh].pos == p0
        invariant Within(server, h0[fh], p0, n) ==> Within(server, handles[fh], pos, n - |data|)
        invariant file == server[handles[fh].name] && (|data| <= n || data == []) && pos == p0 + |data|
        invariant fresh0 && data != [] ==> Slice(file, p0, data)
        invariant hit ==> if data == [] then ahead == a0 else |data| >= a0.Held(fh, p0, n)
        invariant covered ==>
                    if data == [] then ahead == a0 else data == a0.data[p0 - a0.offset..][..n]
        invariant fills && (data != [] || ahead != a0 || handles != h0) ==> ahead.Filled(fh, p0, h0[fh].size)
        invariant covered || fills ==> data == [] || |data| == n
        decreases n - |data|, if ahead.Hit(fh, pos) then 0 else 1
      {
        ghost var was := handles;
        var stop, part;
        stop, r, part := ReadSome(fh, pos, n - |data|, allow);
        RefreshedTwice(server, h0, was, handles, fh);
        WithinStill(server, was, handles, fh, pos, n - |data|, |part|);
        if stop {
          if |data| > 0 { r := |data|; }
          return;
        }
        JoinParts(file, p0, data, part);
        data := data + part;
        pos := pos + |part|;
      }
      r := |data|;
    }

    /** Fills the buffer from the server. */
    method Fill(fh: Slot, pos: int, n: nat) returns (filled: bool, r: int)
      requires Valid() && handles[fh].used && connected && n > 0
      modifies this`ahead, this`handles, this`outages, this`connected, this`mishaps
      ensures Valid() && Fresh()
      ensures if filled then ahead.fh == fh && ahead.offset == pos && |ahead.data| == n else r <= 0
      ensures Refreshed(server, old(handles), handles) && mishaps >= old(mishaps) && outages <= old(outages)
      ensures outages == old(outages) ==> handles == old(handles)
      ensures mishaps == old(mishaps) || filled ==> connected
      ensures mishaps == old(mishaps) && 0 <= pos && pos + n <= |server[old(handles)[fh].name]| ==> filled
    {
      Invalidate(NULL);
      var fill: seq<Byte>;
      r, fill := ReadFileWithReconnect(fh, pos, n);
      if r <= 0 { return false, r; }
      ahead := ahead.(fh := fh, offset := pos, data := fill);
      filled := true;
    }

    /** Moves a handle past what a read delivered, which makes the read that follows it sequential; after an error
        nothing stays buffered for the handle. */
    method Settle(fh: Slot, r: int)
      requires Valid()
      modifies this`ahead, this`handles
      ensures Valid() && (old(Fresh()) ==> Fresh())
      ensures r > 0 ==>
                && handles == old(handles)[fh := old(handles)[fh].(pos := old(handles)[fh].pos + r)]
                && ahead == old(ahead).(seqFh := fh, seqNext := handles[fh].pos)
      ensures r <= 0 ==> handles == old(handles) && ahead == if r < 0 then Forget(old(ahead), fh) else old(ahead)
      ensures old(ahead).fh == NULL ==> ahead.fh == NULL
    {
      ghost var was := handles;
      if r > 0 {
        handles := handles[fh := handles[fh].(pos := handles[fh].pos + r)];
        MovedKeeps(server, was, handles, ahead, fh, r);
        ahead := ahead.(seqFh := fh, seqNext := handles[fh].pos);
      } else if r < 0 {
        ForgetKeeps(server, handles, ahead, fh);
        Invalidate(fh);
      }
    }

    /** Reads at the position of a handle: what is delivered is what the file holds there, if what is buffered
        is. A read that the buffer covers is answered from it in any case. */
    method Read(fh: Slot, n: nat) returns (r: int, data: seq<Byte>)
      requires Valid()
      modifies this`ahead, this`handles, this`outages, this`connected, this`mishaps
      ensures Valid() && (old(Fresh()) ==> Fresh())
      ensures !old(connected && handles[fh].used) ==>
                r == -EBADF && handles == old(handles) && ahead == old(ahead) && mishaps == old(mishaps)
      ensures mishaps == old(mishaps) && old(connected && handles[fh].used && handles[fh].pos >= 0)
              && old(handles)[fh].size <= |server[old(handles)[fh].name]| ==>
                r == Share(old(handles)[fh], n)
      ensures mishaps >= old(mishaps) && (mishaps == old(mishaps) ==> connected == old(connected))
      ensures outages <= old(outages) && Told(server, old(handles), handles)
      ensures outages == old(outages) ==>
                handles == if r > 0 then old(handles)[fh := old(handles)[fh].(pos := old(handles)[fh].pos + r)]
                           else old(handles)
      ensures r > 0 ==>
                && old(connected && handles[fh].used) && r == |data| <= Share(old(handles)[fh], n)
                && (old(Fresh()) ==> Slice(server[old(handles)[fh].name], old(handles)[fh].pos, data))
      ensures OnlyMoved(old(handles), handles, fh, if r > 0 then r else 0)
      ensures old(connected && handles[fh].used && ahead.Hit(fh, handles[fh].pos)) ==>
                r >= old(ahead).Held(fh, old(handles)[fh].pos, Share(old(handles)[fh], n))
      ensures old(connected && handles[fh].used && ahead.Covers(fh, handles[fh].pos, n))
              && old(handles)[fh].pos + n <= old(handles)[fh].size ==>
                r == n && data == old(ahead).data[old(handles)[fh].pos - old(ahead).offset..][..n]
      ensures old(connected && handles[fh].used && ahead.fh == NULL && ahead.seqFh != fh) ==> ahead.fh == NULL
      ensures r > 0 ==> ahead.seqFh == fh && ahead.seqNext == handles[fh].pos
      ensures old(connected && handles[fh].used && ahead.seqFh == fh && ahead.seqNext == handles[fh].pos)
              && old(Ahead(fh, n)) && r > 0 ==>
                r == n && ahead.Filled(fh, old(handles)[fh].pos, old(handles)[fh].size)
      ensures old(Exact(server, handles)) ==> Exact(server, handles)
    {
      hide Slice, Told, Exact, OnlyMoved, Coherent, Refreshed, Forget;
      UnmovedSelf(server, handles, fh);
      data := [];
      if !connected || !handles[fh].used { return -EBADF, data; }
      var h := handles[fh];
      var size: int := n;
      if h.size < h.pos + n { size := h.size - h.pos; }
      var allow := ahead.seqFh == fh && ahead.seqNext == h.pos;
      r, data := ReadCached(fh, size, allow);
      ghost var was := handles;
      ToldMoved(server, old(handles), was, fh, r);
      ToldMoved(server, old(handles), was, fh, 0);
      assert was[fh := was[fh].(pos := was[fh].pos + 0)] == was;
      Settle(fh, r);
    }

    // ----- everything else that touches handles or files -----

    /** One request: the server takes all of a piece and says so, or some of it. */
    method WriteAndX(name: nat, pos: int, data: seq<Byte>) returns (r: int, ghost k: nat, transport: bool)
      requires name in server && 0 < |data| <= 65535
      modifies this`server, this`mishaps
      ensures mishaps == old(mishaps) + if transport || r == |data| then 0 else 1
      ensures k <= |data| && (r > 0 ==> r == k == |data|) && (transport ==> r < 0 && outages > 0)
      ensures pos < 0 ==> k == 0
      ensures server == if pos < 0 then old(server) else old(server)[name := Overlay(old(server)[name], pos, data[..k])]
    {
      var taken: int, replied: bool, broken: bool, error: int := *, *, *, *;
      transport := broken && outages > 0;
      var n: nat := if pos < 0 || taken < 0 then 0 else if taken < |data| then taken else |data|;
      k := n;
      if pos >= 0 { server := server[name := Overlay(server[name], pos, data[..n])]; }
      r := if transport then -ECONNRESET else if n == |data| && replied then |data| else if error < 0 then error else 0;
      if !transport && r != |data| { mishaps := mishaps + 1; }
    }

    /** Writes in requests of limited size; a prefix of the data arrives. */
    method WriteFile(name: nat, pos: int, data: seq<Byte>) returns (r: int, ghost k: nat, transport: bool)
      requires name in server
      modifies this`server, this`mishaps
      ensures mishaps >= old(mishaps) && (mishaps == old(mishaps) && !transport ==> r == |data|)
      ensures k <= |data| && (r > 0 ==> r == k == |data|) && (transport ==> r < 0 && outages > 0)
      ensures pos < 0 ==> k == 0
      ensures server == if pos < 0 then old(server) else old(server)[name := Overlay(old(server)[name], pos, data[..k])]
    {
      hide Overlay;
      var sent := 0;
      transport := false;
      OverlayNothing(server, name, pos, data);
      while sent < |data|
        invariant mishaps == old(mishaps) && 0 <= sent <= |data| && !transport && (pos < 0 ==> sent == 0)
        invariant server == if pos < 0 then old(server)
                      else old(server)[name := Overlay(old(server)[name], pos, data[..sent])]
      {
        var n := if |data| - sent > MAX_XMIT_SIZE then MAX_XMIT_SIZE else |data| - sent;
        r, k, transport := WriteAndX(name, pos + sent, data[sent..sent + n]);
        assert data[sent..sent + n][..k] == data[sent..sent + k];
        k := sent + k;
        if pos >= 0 { OverlayOn(old(server)[name], pos, data, sent, sent, k); }
        if r <= 0 { return; }
        sent := sent + r;
      }
      r, k := |data|, |data|;
    }

    method WriteFileWithReconnect(fh: Slot, pos: int, data: seq<Byte>) returns (r: int, ghost k: nat)
      requires Valid() && handles[fh].used && connected && ahead == EMPTY
      modifies this
      ensures Valid() && OnlyMoved(old(handles), handles, 0, 0) && ahead == EMPTY
      ensures mishaps >= old(mishaps) && (mishaps == old(mishaps) ==> r == |data| && connected)
      ensures outages <= old(outages) && (outages == old(outages) ==> handles == old(handles))
      ensures old(handles)[fh].size == |old(server)[old(handles)[fh].name]| ==>
                |old(server)[old(handles)[fh].name]| <= handles[fh].size <= |server[handles[fh].name]|
      ensures k <= |data| && (r > 0 ==> r == k == |data|)
      ensures server == if pos < 0 then old(server)
                  else old(server)[old(handles)[fh].name := Overlay(old(server)[old(handles)[fh].name], pos, data[..k])]
    {
      hide Overlay;
      ghost var name := handles[fh].name;
      k := 0;
      OverlayNothing(server, name, pos, data);
      while true
        invariant Valid() && OnlyMoved(old(handles), handles, 0, 0) && ahead == EMPTY && k <= |data|
        invariant server == if pos < 0 then old(server)
                      else old(server)[name := Overlay(old(server)[name], pos, data[..k])]
        invariant connected && mishaps >= old(mishaps) && outages <= old(outages)
        invariant outages == old(outages) ==> handles == old(handles)
        invariant handles[fh].size == old(handles)[fh].size || handles[fh].size == |server[name]|
        decreases outages
      {
        var transport: bool;
        ghost var j;
        r, j, transport := WriteFile(handles[fh].name, pos, data);
        if pos >= 0 { OverlayOn(old(server)[name], pos, data, k, 0, j); }
        assert data[0..j] == data[..j];
        k := if k < j then j else k;
        if !transport { return; }
        ghost var was := handles;
        var ok := Reconnect();
        RefreshedMoves(server, was, handles, fh);
        MovedTwice(old(handles), was, handles, 0, 0);
        if !ok { return; }
      }
    }

    /** Writes at the position of a handle: all of the data, or after an error a prefix of it, laid over the
        file. Nothing stays buffered, so nothing is stale afterwards. */
    method Write(fh: Slot, data: seq<Byte>) returns (r: int, ghost k: nat)
      requires Valid()
      modifies this
      ensures Valid() && (old(Fresh()) ==> Fresh()) && k <= |data|
      ensures OnlyMoved(old(handles), handles, fh, if r > 0 then r else 0)
      ensures if old(connected && handles[fh].used && handles[fh].writable) then
                ahead == EMPTY && (r > 0 ==> r == k == |data|)
              else
                && r == (if old(handles)[fh].writable then -EBADF else -EACCES) && mishaps == old(mishaps)
                && server == old(server) && handles == old(handles) && ahead == old(ahead)
      ensures mishaps >= old(mishaps) && (mishaps == old(mishaps) ==> connected == old(connected))
      ensures mishaps == old(mishaps) && old(connected && handles[fh].used && handles[fh].writable) ==> r == |data|
      ensures outages <= old(outages)
      ensures outages == old(outages) ==>
                handles == if r > 0 then old(handles)[fh := Written(old(handles)[fh], r)] else old(handles)
      ensures r > 0 && old(handles)[fh].pos >= 0 && old(handles)[fh].size == |old(server)[old(handles)[fh].name]| ==>
                handles[fh].size == |server[old(handles)[fh].name]|
      ensures old(connected && handles[fh].used && handles[fh].writable && handles[fh].pos >= 0) ==>
                server == old(server)[old(handles)[fh].name :=
                    Overlay(old(server)[old(handles)[fh].name], old(handles)[fh].pos, data[..k])]
      ensures old(handles)[fh].pos < 0 ==> server == old(server)
    {
      hide Overlay;
      k := 0;
      if !handles[fh].writable { return -EACCES, k; }
      if !connected || !handles[fh].used { return -EBADF, k; }
      Invalidate(NULL);
      r, k := WriteFileWithReconnect(fh, handles[fh].pos, data);
      ghost var was := handles;
      if r > 0 {
        var h := handles[fh];
        handles := handles[fh := h.(pos := h.pos + r, size := if h.pos + r > h.size then h.pos + r else h.size)];
        MovedTwice(old(handles), was, handles, fh, r);
      }
    }

    /** Moves the position of a handle, but not past the length it knows. */
    method Seek(fh: Slot, offset: int, whence: nat) returns (r: int)
      requires Valid()
      modifies this`handles
      ensures Valid() && (old(Fresh()) ==> Fresh())
      ensures Sought(old(handles), fh, offset, whence, r, handles)
    {
      if whence == 1 {
        r := handles[fh].pos + offset;
        if r > handles[fh].size { return -EINVAL; }
      } else if whence == 0 {
        r := offset;
        if handles[fh].size < offset { return -EINVAL; }
      } else if whence == 2 {
        r := handles[fh].size;
      } else {
        return -EINVAL;
      }
      MovedKeeps(server, handles, handles[fh := handles[fh].(pos := r)], ahead, fh, r - handles[fh].pos);
      handles := handles[fh := handles[fh].(pos := r)];
    }

    /** One request: the file is opened, created or truncated, and its length told, or it is missing; what was
        asked for may have been done (`done`) even if the reply is lost. */
    method OpenAndX(name: nat, creat: bool, trunc: bool) returns (ok: bool, size: nat, ghost done: bool)
      modifies this`server, this`mishaps
      ensures server == (if done then Opened(old(server), name, trunc) else old(server))
      ensures done ==> creat || name in old(server)
      ensures ok ==> done && name in server && size == |server[name]|
      ensures mishaps == old(mishaps) + if ok || (name !in old(server) && !creat) then 0 else 1
      ensures mishaps == old(mishaps) && !ok ==> !done
    {
      var granted: bool, replied: bool := *, *;
      ok, size, done := false, 0, false;
      if name !in server && !creat { return; }
      if granted {
        if trunc || name !in server { server := server[name := []]; }
        done := true;
      }
      if !granted || !replied {
        mishaps := mishaps + 1;
        return;
      }
      ok, size := true, |server[name]|;
    }

    /** Opens a file in the first free slot. The server may do what it was asked for even if the reply is lost
        (`done`). Truncating a file that another handle has buffered makes the buffer stale; nothing else does. */
    method Open(name: nat, writable: bool, creat: bool, trunc: bool, append: bool) returns (r: int, ghost done: bool)
      requires Valid()
      modifies this
      ensures Valid() && (Fresh() <==> old(Fresh()) && !(done && Truncates(old(handles), old(ahead), name, trunc)))
      ensures !old(connected) ==> r == -ENOTCONN && !done && ahead == old(ahead) && mishaps == old(mishaps)
      ensures mishaps >= old(mishaps) && connected == old(connected)
      ensures mishaps == old(mishaps) ==>
                (r >= 0 <==> old(connected && (creat || name in server)
                                 && exists h: Slot :: !handles[h].used))
      ensures mishaps == old(mishaps) && r < 0 ==> !done
      ensures server == (if done then Opened(old(server), name, trunc) else old(server))
      ensures done ==> creat || name in old(server)
      ensures r < 0 ==> handles == old(handles)
      ensures r >= 0 ==>
                done && r < 32 && !old(handles)[r].used && (forall h :: 0 <= h < r ==> old(handles)[h].used)
      ensures r >= 0 ==>
                handles == old(handles)[r :=
                    Handle(true, name, |server[name]|, if append && !trunc then |server[name]| else 0, writable)]
      ensures r == -EMFILE ==> forall h: Slot :: old(handles)[h].used
      ensures ahead == old(ahead).(seqFh := ahead.seqFh, seqNext := ahead.seqNext)
      ensures r >= 0 ==> ahead == Forget(old(ahead), r)
    {
      done := false;
      if !connected { return -ENOTCONN, done; }
      var fh := 0;
      while fh < |handles| && handles[fh].used
        invariant 0 <= fh <= |handles| && forall h :: 0 <= h < fh ==> handles[h].used
      {
        fh := fh + 1;
      }
      if fh == |handles| { return -EMFILE, done; }
      ghost var s, hs, a := server, handles, ahead;
      Invalidate(fh);
      ForgetKeeps(s, hs, a, fh);
      var ok, size;
      ok, size, done := OpenAndX(name, creat, trunc);
      OpenedKeeps(s, hs, a, name, trunc, fh, hs[fh]);
      assert hs[fh := hs[fh]] == hs;
      if !ok { return -EIO, done; }
      handles := handles[fh := Handle(true, name, size, if append && !trunc then size else 0, writable)];
      OpenedKeeps(s, hs, a, name, trunc, fh, handles[fh]);
      r := fh;
    }

    method CloseFile() returns (ok: bool)
      modifies this`mishaps
      ensures mishaps == old(mishaps) + if ok then 0 else 1
    {
      ok := *;
      if !ok { mishaps := mishaps + 1; }
    }

    method Close(fh: Slot) returns (r: int)
      requires Valid()
      modifies this`handles, this`ahead, this`mishaps
      ensures Valid() && (old(Fresh()) ==> Fresh())
      ensures mishaps >= old(mishaps)
      ensures if mishaps == old(mishaps) then (r == 0 <==> connected && old(handles)[fh].used) else r != 0
      ensures r == 0 ==> handles == old(handles)[fh := FREE] && ahead == Forget(old(ahead), fh)
      ensures r != 0 ==> handles == old(handles) && ahead == old(ahead)
    {
      if !connected || !handles[fh].used { return -EBADF; }
      var ok := CloseFile();
      if !ok { return -EIO; }
      Invalidate(fh);
      handles := handles[fh := FREE];
      r := 0;
    }
  }

  lemma OverlayNothing(server: Files, name: nat, pos: int, data: seq<Byte>)
    requires name in server
    ensures pos >= 0 ==> server == server[name := Overlay(server[name], pos, data[..0])]
  {
    assert data[..0] == [] && server == server[name := server[name]];
  }

  // ----- whole runs -----

  datatype Op =
    | DoOpen(name: nat, writable: bool, creat: bool, trunc: bool, append: bool) | DoClose(fh: Slot)
    | DoSeek(fh: Slot, offset: int, whence: nat) | DoRead(fh: Slot, n: nat) | DoWrite(fh: Slot, data: seq<Byte>)
    | DoReconnect

  datatype Answer = Answer(r: int, data: seq<Byte>)

  predicate Outdates(op: Op, s: Snap) {
    op.DoOpen? && Truncates(s.handles, s.ahead, op.name, op.trunc)
  }

  /** A read that delivers something delivers what the file holds at the position. */
  ghost predicate ReadsRight(op: Op, s: Snap, a: Answer)
    requires s.Valid()
  {
    op.DoRead? && a.r > 0 ==>
      && s.handles[op.fh].used && a.r == |a.data| <= op.n
      && Slice(s.server[s.handles[op.fh].name], s.handles[op.fh].pos, a.data)
  }

  /** `k` bytes of `data` were laid over the file of a handle at its position. */
  ghost predicate Wrote(s: Snap, s': Snap, fh: Slot, data: seq<Byte>, k: nat)
    requires s.Valid()
  {
    && k <= |data| && s.handles[fh].used && s.handles[fh].pos >= 0
    && s'.server == s.server[s.handles[fh].name := Overlay(s.server[s.handles[fh].name], s.handles[fh].pos, data[..k])]
  }

  /** What an operation may answer and do, in terms of files and handles. With no new mishap, which is a request
      answered with less than was asked for or a session not restored, it does what it was asked to. */
  ghost predicate Answers(op: Op, s: Snap, a: Answer, s': Snap)
    requires s.Valid() && s'.Valid()
  {
    var calm := s'.mishaps == s.mishaps;
    && s'.mishaps >= s.mishaps && (calm ==> s'.connected == s.connected)
    && match op
    case DoOpen(name, writable, creat, trunc, append) =>
      && (s'.server == s.server || (s'.server == Opened(s.server, name, trunc) && (creat || name in s.server)))
      && s'.ahead == s.ahead.(seqFh := s'.ahead.seqFh, seqNext := s'.ahead.seqNext)
      && (calm ==>
            (a.r >= 0 <==> s.connected && (creat || name in s.server) && exists h: Slot :: !s.handles[h].used))
      && if a.r < 0 then s'.handles == s.handles && (calm ==> s'.server == s.server)
         else
           && s.connected && s'.connected && a.r < MAX_HANDLES && !s.handles[a.r].used
           && (forall h :: 0 <= h < a.r ==> s.handles[h].used)
           && name in s'.server && s'.server == Opened(s.server, name, trunc)
           && var size := |s'.server[name]|;
              s'.handles == s.handles[a.r := Handle(true, name, size, if append && !trunc then size else 0, writable)]
    case DoClose(fh) =>
      && s'.server == s.server && s'.handles == (if a.r == 0 then s.handles[fh := FREE] else s.handles)
      && if calm then (a.r == 0 <==> s.connected && s.handles[fh].used) else a.r != 0
    case DoSeek(fh, offset, whence) => s'.server == s.server && Sought(s.handles, fh, offset, whence, a.r, s'.handles)
    case DoRead(fh, n) =>
      var h := s.handles[fh];
      && s'.server == s.server && OnlyMoved(s.handles, s'.handles, fh, if a.r > 0 then a.r else 0)
      && Told(s.server, s.handles, s'.handles)
      && if !(s.connected && h.used) then a.r == -EBADF
         else a.r <= Share(h, n) && (calm && h.pos >= 0 && h.size <= |s.server[h.name]| ==> a.r == Share(h, n))
    case DoWrite(fh, data) =>
      var h := s.handles[fh];
      && OnlyMoved(s.handles, s'.handles, fh, if a.r > 0 then a.r else 0)
      && (s'.server == s.server || exists k: nat :: Wrote(s, s', fh, data, k))
      && (a.r > 0 && h.pos >= 0 ==> a.r == |data| && Wrote(s, s', fh, data, |data|))
      && (a.r > 0 && h.pos >= 0 && h.size == |s.server[h.name]| ==> s'.handles[fh].size == |s'.server[h.name]|)
      && if !h.writable then a.r == -EACCES
         else if !(s.connected && h.used) then a.r == -EBADF
         else calm ==> a.r == |data|
    case DoReconnect =>
      && s'.server == s.server && OnlyMoved(s.handles, s'.handles, 0, 0)
      && Told(s.server, s.handles, s'.handles) && (calm ==> s'.handles == s.handles || Exact(s'.server, s'.handles))
  }

  /** One operation. What is buffered can only become stale by a truncating open of its file. */
  method Perform(c: Client, op: Op) returns (a: Answer)
    requires c.Valid()
    modifies c
    ensures c.Valid()
    ensures
      var s, s' := old(c.Now()), c.Now();
      && s.Valid() && Answers(op, s, a, s')
      && (s.Fresh() ==> ReadsRight(op, s, a)) && (s.Fresh() && !s'.Fresh() ==> Outdates(op, s))
  {
    hide Slice, Overlay;
    ghost var s := c.Now();
    var r, data := 0, [];
    match op {
      case DoOpen(name, writable, creat, trunc, append) =>
        ghost var done;
        r, done := c.Open(name, writable, creat, trunc, append);
      case DoClose(fh) => r := c.Close(fh);
      case DoSeek(fh, offset, whence) => r := c.Seek(fh, offset, whence);
      case DoRead(fh, n) => r, data := c.Read(fh, n);
      case DoWrite(fh, d) =>
        ghost var k;
        r, k := c.Write(fh, d);
        assert c.server != s.server ==> Wrote(s, c.Now(), fh, d, k);
      case DoReconnect => if c.outages > 0 && c.connected { var _ := c.Reconnect(); }
    }
    a := Answer(r, data);
  }

  /** Every run, from any files on the server and with the connection breaking at any time. Every operation
      answers as it should, and as long as no file is truncated while it is buffered for another handle, every
      read delivers what its file holds. */
  method Run(files: Files, outages: nat, ops: seq<Op>) returns (c: Client, answers: seq<Answer>, ghost trace: seq<Snap>)
    ensures |answers| == |ops| && |trace| == |ops| + 1 && c.Valid()
    ensures trace[|ops|] == c.Now()
    ensures trace[0] == Snap(files, seq(MAX_HANDLES, _ => FREE), EMPTY, true, 0)
    ensures forall i :: 0 <= i <= |ops| ==> trace[i].Valid()
    ensures forall i :: 0 <= i < |ops| ==> Answers(ops[i], trace[i], answers[i], trace[i + 1])
    ensures (forall i :: 0 <= i < |ops| ==> !Outdates(ops[i], trace[i])) ==>
              forall i :: 0 <= i < |ops| ==> ReadsRight(ops[i], trace[i], answers[i])
  {
    hide Answers, ReadsRight, Coherent, Sound, Outdates;
    c := new Client(files, outages);
    answers, trace := [], [c.Now()];
    for n := 0 to |ops|
      invariant c.Valid() && fresh(c) && |answers| == n && |trace| == n + 1
      invariant trace[n] == c.Now()
      invariant trace[0] == Snap(files, seq(MAX_HANDLES, _ => FREE), EMPTY, true, 0)
      invariant forall i :: 0 <= i <= n ==> trace[i].Valid()
      invariant forall i :: 0 <= i < n ==> Answers(ops[i], trace[i], answers[i], trace[i + 1])
      invariant (forall i :: 0 <= i < n ==> !Outdates(ops[i], trace[i])) ==>
                  trace[n].Fresh() && forall i :: 0 <= i < n ==> ReadsRight(ops[i], trace[i], answers[i])
    {
      var a := Perform(c, ops[n]);
      answers := answers + [a];
      trace := trace + [c.Now()];
    }
  }

  // ----- stale reads -----

  /** Whenever the buffer covers a read of a handle and its file was then truncated by opening it once more, the read
      delivers the old bytes, which the file no longer has. */
  method StaleRead(c: Client, ghost s: Snap, ghost op: Op, ghost a: Answer, fh: Slot, n: nat)
      returns (r: int, data: seq<Byte>)
    requires c.Valid() && s.Valid() && s.Fresh() && op.DoOpen? && op.trunc && a.r >= 0
    requires Answers(op, s, a, c.Now())
    requires s.handles[fh].used && s.handles[fh].name == op.name && s.ahead.fh == fh && 0 < n
    requires s.ahead.offset <= s.handles[fh].pos && s.handles[fh].pos + n <= s.ahead.offset + |s.ahead.data|
    requires s.handles[fh].pos + n <= s.handles[fh].size
    modifies c
    ensures c.mishaps >= old(c.mishaps)
    ensures r == n == |data| && Slice(s.server[op.name], s.handles[fh].pos, data) && op.name in c.server
    ensures c.server[op.name] == []
  {
    ghost var pos := s.handles[fh].pos;
    SlicePart(s.server[op.name], s.ahead.offset, s.ahead.data, pos - s.ahead.offset, n);
    r, data := c.Read(fh, n);
    CutTwice(s.ahead.data, pos - s.ahead.offset, n);
  }

  /** A file is opened and read byte by byte, the second time ahead. */
  method ReadTwice(files: Files, name: nat, outages: nat) returns (c: Client, fh: int, sizes: (int, int))
    requires name in files && |files[name]| >= 3
    ensures fresh(c) && c.Valid() && c.Fresh() && c.server == files && fh < MAX_HANDLES
    ensures fh >= 0 && sizes.0 == sizes.1 == 1 ==>
              && c.handles[fh].used && c.handles[fh].name == name && c.handles[fh].pos == 2
              && c.handles[fh].size == |files[name]| && c.ahead.fh == fh && c.ahead.Covers(fh, 2, 1)
    ensures c.mishaps == 0 ==> c.connected && fh >= 0 && sizes == (1, 1) && !c.handles[1].used
  {
    hide Slice;
    c := new Client(files, outages);
    fh, sizes := 0, (0, 0);
    ghost var done;
    var r1, r2, data := 0, 0, [];
    assert !c.handles[1].used && !c.handles[0].used;
    fh, done := c.Open(name, false, false, false, false);
    assert Opened(files, name, false) == files;
    if fh < 0 { return; }
    assert fh == 0;
    r1, data := c.Read(fh, 1);
    if r1 == 1 {
      assert c.handles[fh].pos == 1 && c.handles[fh].size == |files[name]| && c.Ahead(fh, 1);
      r2, data := c.Read(fh, 1);
    }
    sizes := (r1, r2);
  }

  /** A run to such a read: after the two reads the file is opened once more and truncated; the third byte is
      still delivered. It takes no more than that all these requests are answered. */
  method StaleRun(files: Files, name: nat, outages: nat)
    returns (c: Client, slots: (int, int), sizes: (int, int, int), data: seq<Byte>)
    requires name in files && |files[name]| >= 3
    ensures slots.0 >= 0 && slots.1 >= 0 && sizes.0 == sizes.1 == 1 ==>
              sizes.2 == 1 && data == [files[name][2]] && name in c.server && c.server[name] == []
    ensures c.mishaps == 0 ==> slots.0 >= 0 && slots.1 >= 0 && sizes == (1, 1, 1)
  {
    var fh, first;
    c, fh, first := ReadTwice(files, name, outages);
    var second, r := -1, 0;
    data := [];
    if fh >= 0 && first.0 == 1 && first.1 == 1 {
      ghost var s, done := c.Now(), false;
      second, done := c.Open(name, true, false, true, false);
      if second >= 0 {
        r, data := StaleRead(c, s, DoOpen(name, true, false, true, false), Answer(second, []), fh, 1);
      }
    }
    slots, sizes := (fh, second), (first.0, first.1, r);
  }
}
