/** Log rotation by number (Foundation/src/ArchiveStrategy.cpp).
    The file system is a map; the compressor thread is a queue whose steps may come between any two moves. */
module LogArchive {
  import opened Wrappers

  /** The names that occur for one log: the log itself, path.k, and either with the suffix ".gz". */
  datatype Path = Log(gz: bool) | Number(k: nat, gz: bool)

  datatype Content = Plain(data: string) | Gzip(data: string)

  type Files = map<Path, Content>

  const BASE: Path := Log(false)

  function Lookup(fs: Files, p: Path): Option<Content> {
    if p in fs then Some(fs[p]) else None
  }

  /** Files named .gz hold compressed data, the others do not. */
  ghost predicate WellTyped(fs: Files) {
    forall p :: p in fs ==> fs[p].Gzip? == p.gz
  }

  // ------------------------------------------------------------------------------------------
  // What rotation is to do
  // ------------------------------------------------------------------------------------------

  /** exists(path.k): a compressed file counts only while compression is on. */
  predicate Exists(fs: Files, compress: bool, k: nat) {
    Number(k, false) in fs || (compress && Number(k, true) in fs)
  }

  ghost predicate IsFirstFree(fs: Files, compress: bool, n: nat) {
    !Exists(fs, compress, n) && forall k :: 0 <= k < n ==> Exists(fs, compress, k)
  }

  ghost function FirstFreeNumber(fs: Files, compress: bool): (n: nat)
    ensures IsFirstFree(fs, compress, n)
  {
    FreeFrom(fs, compress, 0)
  }

  ghost function FreeFrom(fs: Files, compress: bool, k: nat): (n: nat)
    requires forall j :: 0 <= j < k ==> Exists(fs, compress, j)
    ensures IsFirstFree(fs, compress, n)
    decreases |fs| + 1 - k
  {
    if !Exists(fs, compress, k) then k
    else
      ExistingAreFinite(fs, compress, k + 1);
      FreeFrom(fs, compress, k + 1)
  }

  lemma FirstFreeIsUnique(fs: Files, compress: bool, n: nat)
    requires IsFirstFree(fs, compress, n)
    ensures n == FirstFreeNumber(fs, compress)
  {
    hide FirstFreeNumber, Exists;
  }

  /** The number that archive looks for: up to it every path.k exists, compressed or not, a compressed one counting with
      compression only. */
  lemma FirstFreeExactly(fs: Files, compress: bool, n: nat)
    ensures n == FirstFreeNumber(fs, compress) <==>
            Number(n, false) !in fs && (compress ==> Number(n, true) !in fs) &&
            forall k: nat :: k < n ==> Number(k, false) in fs || (compress && Number(k, true) in fs)
  {
    hide FirstFreeNumber;
    if n == FirstFreeNumber(fs, compress) {
      forall k: nat | k < n ensures Number(k, false) in fs || (compress && Number(k, true) in fs) {
        assert Exists(fs, compress, k);
      }
    } else if IsFirstFree(fs, compress, n) {
      FirstFreeIsUnique(fs, compress, n);
    }
  }

  /** Archive k is there at most once, as path.k or as path.k.gz. */
  ghost predicate OneForm(fs: Files) {
    forall k: nat :: Number(k, false) in fs ==> Number(k, true) !in fs
  }

  /** What exists(path.k) found. */
  function Form(fs: Files, k: nat): Path {
    Number(k, Number(k, false) !in fs)
  }

  function Packed(compress: bool, data: string): Content {
    if compress then Gzip(data) else Plain(data)
  }

  /** The files once the archives from n - 1 down to `cur` have moved up by one and have been compressed if that is on.
      Archive `cur` is gone by then, and the ones below it have not been touched. */
  ghost function Shifted(fs: Files, compress: bool, n: nat, cur: nat, p: Path): Option<Content>
    requires IsFirstFree(fs, compress, n)
  {
    if p.Log? || p.k > n || p.k < cur then Lookup(fs, p)
    else if p.gz != compress then (if p.gz then Lookup(fs, p) else None)
    else if p.k == cur then None
    else
      assert Exists(fs, compress, p.k - 1);
      Some(Packed(compress, fs[Form(fs, p.k - 1)].data))
  }

  /** The files after a rotation: the log has become archive 0, and a new empty log takes its place. */
  ghost function Rotated(fs: Files, compress: bool, p: Path): Option<Content>
    requires BASE in fs
  {
    if p == BASE then Some(Plain(""))
    else if p == Number(0, compress) then Some(Packed(compress, fs[BASE].data))
    else Shifted(fs, compress, FirstFreeNumber(fs, compress), 0, p)
  }

  // ------------------------------------------------------------------------------------------
  // The compressor
  // ------------------------------------------------------------------------------------------

  /** The files as they will be when the queue is empty. */
  ghost function Settled(fs: Files, queue: seq<Path>, p: Path): Option<Content> {
    if p.Log? then Lookup(fs, p)
    else if p in queue then None
    else if p.gz && p.(gz := false) in queue && p.(gz := false) in fs then Some(Gzip(fs[p.(gz := false)].data))
    else Lookup(fs, p)
  }

  /** The same as a map. */
  ghost function AtRest(fs: Files, queue: seq<Path>): (r: Files)
    ensures forall p :: Lookup(r, p) == Settled(fs, queue, p)
  {
    var names := fs.Keys + set p | p in queue :: p.(gz := true);
    assert forall p: Path :: p.gz ==> p.(gz := false).(gz := true) == p;
    map p | p in names && Settled(fs, queue, p).Some? :: Settled(fs, queue, p).value
  }

  /** Archives are queued, and the compressed names of those that are there are free. A queued file may have been moved on, and
      may be queued twice. */
  ghost predicate QueueSound(fs: Files, queue: seq<Path>) {
    forall p :: p in queue ==> p.Number? && !p.gz && (p in fs ==> p.(gz := true) !in fs)
  }

  lemma CompressionSettles(fs: Files, queue: seq<Path>)
    requires queue != [] && QueueSound(fs, queue) && WellTyped(fs)
    ensures var p, rest := queue[0], queue[1..];
            var fs1 := if p in fs then (fs - {p})[p.(gz := true) := Gzip(fs[p].data)] else fs;
            QueueSound(fs1, rest) && WellTyped(fs1) && forall q :: Settled(fs1, rest, q) == Settled(fs, queue, q)
  {
    var p, rest := queue[0], queue[1..];
    var fs1 := if p in fs then (fs - {p})[p.(gz := true) := Gzip(fs[p].data)] else fs;
    assert forall q :: q in queue <==> q == p || q in rest;
    forall q ensures Settled(fs1, rest, q) == Settled(fs, queue, q) {
      var plain := q.(gz := false);
      assert plain in queue <==> plain == p || plain in rest;
    }
  }

  class ArchiveStrategy {
    var fs: Files
    var compress: bool
    var queue: seq<Path>

    constructor (fs: Files, compress: bool)
      ensures this.fs == fs && this.compress == compress && queue == []
    {
      this.fs, this.compress, queue := fs, compress, [];
    }

    /** File::renameTo. It is never called with an existing target. */
    method RenameTo(from: Path, to: Path)
      requires from in fs && to !in fs
      modifies `fs
      ensures fs == (old(fs) - {from})[to := old(fs)[from]]
    {
      fs := (fs - {from})[to := fs[from]];
    }

    /** compressImpl on the next queued path; nothing is done for a file that is no longer there. */
    method CompressNext()
      requires queue != [] && QueueSound(fs, queue) && WellTyped(fs)
      modifies `fs, `queue
      ensures QueueSound(fs, queue) && WellTyped(fs) && queue == old(queue)[1..]
      ensures forall p :: Settled(fs, queue, p) == old(Settled(fs, queue, p))
    {
      var path := queue[0];
      var gzPath := path.(gz := true);
      CompressionSettles(fs, queue);
      queue := queue[1..];
      if path in fs {
        fs := (fs - {path})[gzPath := Gzip(fs[path].data)];
      }
    }

    /** The compressor thread may do some of its work at any time. */
    method LetCompressorRun()
      requires QueueSound(fs, queue) && WellTyped(fs)
      modifies `fs, `queue
      ensures QueueSound(fs, queue) && WellTyped(fs) && (old(queue) == [] ==> queue == [])
      ensures forall p :: Settled(fs, queue, p) == old(Settled(fs, queue, p))
    {
      var more: bool := *;
      while more && queue != []
        invariant QueueSound(fs, queue) && WellTyped(fs) && (old(queue) == [] ==> queue == [])
        invariant forall p :: Settled(fs, queue, p) == old(Settled(fs, queue, p))
        decreases |queue|
      {
        CompressNext();
        more := *;
      }
    }

    /** The compressor works off its queue. */
    method Drain()
      requires QueueSound(fs, queue) && WellTyped(fs)
      modifies `fs, `queue
      ensures queue == [] && WellTyped(fs)
      ensures forall p :: Lookup(fs, p) == old(Settled(fs, queue, p))
    {
      while queue != []
        invariant QueueSound(fs, queue) && WellTyped(fs)
        invariant forall p :: Settled(fs, queue, p) == old(Settled(fs, queue, p))
        decreases |queue|
      {
        CompressNext();
      }
      assert forall p :: Settled(fs, queue, p) == Lookup(fs, p);
    }

    method MoveFile(oldPath: Path, k: nat)
      requires !oldPath.gz && (oldPath in fs || oldPath.(gz := true) in fs)
      requires if oldPath in fs then Number(k, false) !in fs else Number(k, true) !in fs
      modifies `fs, `queue
      ensures var f := if oldPath in old(fs) then oldPath else oldPath.(gz := true);
              fs == (old(fs) - {f})[Number(k, f.gz) := old(fs)[f]] &&
              queue == if compress && !f.gz then old(queue) + [Number(k, false)] else old(queue)
    {
      var compressed := false;
      var f := oldPath;
      if f !in fs {
        f := oldPath.(gz := true);
        compressed := true;
      }
      var mvPath := Number(k, compress || compressed);
      if !compress || compressed {
        RenameTo(f, mvPath);
      } else {
        RenameTo(f, Number(k, false));
        queue := queue + [Number(k, false)];
      }
    }

    /** One move of the second loop of archive: what stands in front of the hole moves into it. */
    method MoveUp(i: nat, ghost fs0: Files)
      requires QueueSound(fs, queue) && WellTyped(fs) && (compress || queue == [])
      requires BASE in fs0 && WellTyped(fs0) && (compress ==> OneForm(fs0)) && i <= FirstFreeNumber(fs0, compress)
      requires forall p :: Settled(fs, queue, p) == Shifted(fs0, compress, FirstFreeNumber(fs0, compress), i, p)
      modifies `fs, `queue
      ensures QueueSound(fs, queue) && WellTyped(fs) && (compress || queue == [])
      ensures if i > 0 then forall p :: Settled(fs, queue, p) == Shifted(fs0, compress, FirstFreeNumber(fs0, compress), i - 1, p)
              else forall p :: p != BASE ==> Settled(fs, queue, p) == Rotated(fs0, compress, p)
    {
      hide Settled, Shifted, Rotated, QueueSound, WellTyped, OneForm, IsFirstFree, FirstFreeNumber;
      ghost var n := FirstFreeNumber(fs0, compress);
      var oldPath := if i > 0 then Number(i - 1, false) else BASE;
      ghost var before, q := fs, queue;
      MoveReady(fs0, fs, queue, compress, n, i);
      MoveFile(oldPath, i);
      MoveKeeps(fs0, before, q, fs, queue, compress, n, i);
    }

    /** The first loop of archive: the smallest number without an archive. */
    method FirstFree() returns (n: nat)
      ensures n == FirstFreeNumber(fs, compress)
    {
      n := 0;
      while Exists(fs, compress, n)
        invariant forall k :: 0 <= k < n ==> Exists(fs, compress, k)
        decreases |fs| + 1 - n
      {
        ExistingAreFinite(fs, compress, n + 1);
        n := n + 1;
      }
      FirstFreeIsUnique(fs, compress, n);
    }

    /** ArchiveByNumberStrategy::archive, with compressions possibly pending from earlier rotations. */
    method Archive()
      requires QueueSound(fs, queue) && (compress || queue == [])
      requires BASE in fs && WellTyped(fs) && (compress ==> OneForm(fs))
      modifies `fs, `queue
      ensures QueueSound(fs, queue) && WellTyped(fs) && (compress || queue == [])
      ensures forall p :: Settled(fs, queue, p) == Rotated(old(AtRest(fs, queue)), compress, p)
    {
      ghost var fs0 := AtRest(fs, queue);
      RestIsSound(fs, queue, compress);
      NothingShifted(fs0, compress);
      hide Settled, Shifted, Rotated, AtRest, QueueSound, WellTyped, OneForm, IsFirstFree, FirstFreeNumber;
      var i: int := FirstFree();
      ghost var n := FirstFreeNumber(fs0, compress);
      while i >= 0
        invariant -1 <= i <= n
        invariant QueueSound(fs, queue) && WellTyped(fs) && (compress || queue == [])
        invariant i >= 0 ==> forall p :: Settled(fs, queue, p) == Shifted(fs0, compress, n, i, p)
        invariant i == -1 ==> forall p :: p != BASE ==> Settled(fs, queue, p) == Rotated(fs0, compress, p)
      {
        MoveUp(i, fs0);
        LetCompressorRun();
        i := i - 1;
      }
      BaseIsNew(fs, queue);
      fs := fs[BASE := Plain("")];
    }
  }

  lemma NothingShifted(fs: Files, compress: bool)
    ensures var n := FirstFreeNumber(fs, compress); forall p :: Shifted(fs, compress, n, n, p) == Lookup(fs, p)
  {
  }

  lemma BaseIsNew(fs: Files, queue: seq<Path>)
    requires QueueSound(fs, queue)
    ensures QueueSound(fs[BASE := Plain("")], queue)
    ensures forall p :: Settled(fs[BASE := Plain("")], queue, p) == if p == BASE then Some(Plain("")) else Settled(fs, queue, p)
  {
    var fs1 := fs[BASE := Plain("")];
    forall p ensures Settled(fs1, queue, p) == if p == BASE then Some(Plain("")) else Settled(fs, queue, p) {
      if p.Number? { assert p.(gz := false) != BASE; }
    }
  }

  /** Pending compressions change nothing about which archives exist, and once they are done each is there in one form still. */
  lemma RestIsSound(fs: Files, queue: seq<Path>, compress: bool)
    requires QueueSound(fs, queue) && (compress || queue == [])
    requires BASE in fs && WellTyped(fs) && (compress ==> OneForm(fs))
    ensures var r := AtRest(fs, queue);
            BASE in r && r[BASE] == fs[BASE] && WellTyped(r) && (compress ==> OneForm(r)) &&
            FirstFreeNumber(r, compress) == FirstFreeNumber(fs, compress)
  {
    var r := AtRest(fs, queue);
    assert Lookup(r, BASE) == Settled(fs, queue, BASE);
    forall p | p in r ensures r[p].Gzip? == p.gz { assert Lookup(r, p) == Settled(fs, queue, p); }
    forall k: nat
      ensures Exists(r, compress, k) == Exists(fs, compress, k) && (compress ==> Number(k, false) !in r || Number(k, true) !in r)
    {
      assert Lookup(r, Number(k, false)) == Settled(fs, queue, Number(k, false));
      assert Lookup(r, Number(k, true)) == Settled(fs, queue, Number(k, true));
    }
    FirstFreeIsUnique(r, compress, FirstFreeNumber(fs, compress));
  }

  /** The names of n existing archives are n different files. */
  lemma {:induction false} ExistingAreFinite(fs: Files, compress: bool, n: nat)
    requires forall k :: 0 <= k < n ==> Exists(fs, compress, k)
    ensures n <= |fs|
  {
    var names := ExistingNames(fs, compress, n);
    SubsetCardinality(names, fs.Keys);
  }

  lemma {:induction false} ExistingNames(fs: Files, compress: bool, n: nat) returns (names: set<Path>)
    requires forall k :: 0 <= k < n ==> Exists(fs, compress, k)
    ensures names <= fs.Keys && |names| == n && forall p :: p in names ==> p.Number? && p.k < n
  {
    if n == 0 {
      names := {};
    } else {
      var fewer := ExistingNames(fs, compress, n - 1);
      assert Exists(fs, compress, n - 1);
      names := fewer + {Form(fs, n - 1)};
    }
  }

  lemma {:induction false} SubsetCardinality<T>(a: set<T>, b: set<T>)
    requires a <= b
    ensures |a| <= |b|
  {
    assert b == a + (b - a);
  }

  /** The file in front of the hole holds the original text, possibly not compressed yet, and the hole is free. */
  lemma MoveReady(fs0: Files, fs: Files, queue: seq<Path>, compress: bool, n: nat, i: nat)
    requires BASE in fs0 && IsFirstFree(fs0, compress, n) && i <= n && (compress ==> OneForm(fs0))
    requires QueueSound(fs, queue) && (compress || queue == [])
    requires forall p :: Settled(fs, queue, p) == Shifted(fs0, compress, n, i, p)
    ensures BASE in fs && fs[BASE] == fs0[BASE] && Number(i, false) !in fs && (compress ==> Number(i, true) !in fs)
    ensures i > 0 ==> var f, f0 := Form(fs, i - 1), Form(fs0, i - 1);
                      f in fs && f0 in fs0 && fs[f].data == fs0[f0].data && (compress || !f.gz) && (compress ==> f.(gz := !f.gz) !in fs)
    ensures i > 0 && queue == [] ==> Form(fs, i - 1) == Form(fs0, i - 1)
  {
    assert Settled(fs, queue, BASE) == Lookup(fs, BASE);
    assert Settled(fs, queue, Number(i, false)) == Shifted(fs0, compress, n, i, Number(i, false));
    assert Settled(fs, queue, Number(i, true)) == Shifted(fs0, compress, n, i, Number(i, true));
    if i > 0 {
      assert Exists(fs0, compress, i - 1);
      assert Settled(fs, queue, Number(i - 1, false)) == Lookup(fs0, Number(i - 1, false));
      assert Settled(fs, queue, Number(i - 1, true)) == Lookup(fs0, Number(i - 1, true));
    }
  }

  /** One move carries the hole down by one. */
  lemma MoveKeeps(fs0: Files, fs: Files, queue: seq<Path>, fs1: Files, queue1: seq<Path>, compress: bool, n: nat, i: nat)
    requires BASE in fs0 && n == FirstFreeNumber(fs0, compress) && i <= n && WellTyped(fs0) && (compress ==> OneForm(fs0))
    requires QueueSound(fs, queue) && WellTyped(fs) && (compress || queue == [])
    requires forall p :: Settled(fs, queue, p) == Shifted(fs0, compress, n, i, p)
    requires var f := if i > 0 then Form(fs, i - 1) else BASE;
             f in fs && fs1 == (fs - {f})[Number(i, f.gz) := fs[f]] &&
             queue1 == if compress && !f.gz then queue + [Number(i, false)] else queue
    ensures QueueSound(fs1, queue1) && WellTyped(fs1) && (compress || queue1 == [])
    ensures i > 0 ==> forall p :: Settled(fs1, queue1, p) == Shifted(fs0, compress, n, i - 1, p)
    ensures i == 0 ==> forall p :: p != BASE ==> Settled(fs1, queue1, p) == Rotated(fs0, compress, p)
  {
    var f := if i > 0 then Form(fs, i - 1) else BASE;
    MoveReady(fs0, fs, queue, compress, n, i);
    MovedIsSound(fs, queue, fs1, queue1, compress, i, f);
    hide QueueSound, WellTyped, AtRest, FirstFreeNumber;
    forall p ensures Settled(fs1, queue1, p) == if i > 0 then Shifted(fs0, compress, n, i - 1, p)
                                               else if p == BASE then None else Rotated(fs0, compress, p)
    {
      assert Settled(fs, queue, p) == Shifted(fs0, compress, n, i, p);
      MovedSettles(fs, queue, fs1, queue1, compress, i, f, p);
      hide Settled;
      if i > 0 && (p.Number? ==> p.k < i) { HoleMoved(fs0, compress, n, i, p); }
    }
  }

  /** The move seen through the work that is left for the compressor. */
  lemma MovedSettles(fs: Files, queue: seq<Path>, fs1: Files, queue1: seq<Path>, compress: bool, i: nat, f: Path, p: Path)
    requires QueueSound(fs, queue) && WellTyped(fs) && (compress || queue == [])
    requires f in fs && Number(i, false) !in fs && (compress ==> Number(i, true) !in fs)
    requires if i > 0 then f == Form(fs, i - 1) && (compress ==> f.(gz := !f.gz) !in fs) && (compress || !f.gz) else f == BASE
    requires fs1 == (fs - {f})[Number(i, f.gz) := fs[f]]
    requires queue1 == if compress && !f.gz then queue + [Number(i, false)] else queue
    ensures Settled(fs1, queue1, p) ==
            if p == f || (compress && i > 0 && p.Number? && p.k == i - 1) then None
            else if p == Number(i, compress) then Some(if compress then Gzip(fs[f].data) else fs[f])
            else Settled(fs, queue, p)
  {
    assert p in queue1 <==> p in queue || (compress && !f.gz && p == Number(i, false));
    var plain := p.(gz := false);
    assert plain in queue1 <==> plain in queue || (compress && !f.gz && plain == Number(i, false));
  }

  lemma MovedIsSound(fs: Files, queue: seq<Path>, fs1: Files, queue1: seq<Path>, compress: bool, i: nat, f: Path)
    requires QueueSound(fs, queue) && WellTyped(fs) && (compress || queue == [])
    requires f in fs && Number(i, false) !in fs && (compress ==> Number(i, true) !in fs) && (f == BASE || f.Number?)
    requires fs1 == (fs - {f})[Number(i, f.gz) := fs[f]]
    requires queue1 == if compress && !f.gz then queue + [Number(i, false)] else queue
    ensures QueueSound(fs1, queue1) && WellTyped(fs1) && (compress || queue1 == [])
  {
    assert forall p :: p in queue1 <==> p in queue || (compress && !f.gz && p == Number(i, false));
  }

  /** Below the old hole only the moved file is gone. */
  lemma HoleMoved(fs0: Files, compress: bool, n: nat, i: nat, p: Path)
    requires IsFirstFree(fs0, compress, n) && 0 < i <= n && (compress ==> OneForm(fs0))
    requires p.Number? ==> p.k < i
    ensures Shifted(fs0, compress, n, i - 1, p) == if p == Form(fs0, i - 1) then None else Lookup(fs0, p)
  {
    assert Exists(fs0, compress, i - 1);
  }

  // ------------------------------------------------------------------------------------------
  // What rotation means for the archives
  // ------------------------------------------------------------------------------------------

  ghost predicate HasText(fs: Files, k: nat, text: string) {
    Form(fs, k) in fs && fs[Form(fs, k)].data == text
  }

  /** Every archive below the first free number moves up by one, the log becomes archive 0, all else stays: no text is lost.
      One form per archive is kept, except that without compression a leftover path.n.gz gets a plain twin. */
  lemma RotationMovesArchives(fs: Files, fs1: Files, compress: bool, n: nat)
    requires BASE in fs && WellTyped(fs) && OneForm(fs) && n == FirstFreeNumber(fs, compress)
    requires forall p :: Lookup(fs1, p) == Rotated(fs, compress, p)
    ensures HasText(fs1, 0, fs[BASE].data) && BASE in fs1 && fs1[BASE] == Plain("")
    ensures forall k :: 0 <= k < n ==> Form(fs, k) in fs && HasText(fs1, k + 1, fs[Form(fs, k)].data)
    ensures forall k, gz :: k > n ==> Lookup(fs1, Number(k, gz)) == Lookup(fs, Number(k, gz))
    ensures OneForm(fs1) <==> compress || Number(n, true) !in fs
  {
    assert Lookup(fs1, BASE) == Rotated(fs, compress, BASE);
    assert Lookup(fs1, Number(0, false)) == Rotated(fs, compress, Number(0, false));
    assert Lookup(fs1, Number(0, true)) == Rotated(fs, compress, Number(0, true));
    forall k | 0 <= k < n ensures Form(fs, k) in fs && HasText(fs1, k + 1, fs[Form(fs, k)].data) {
      assert Exists(fs, compress, k);
      assert Lookup(fs1, Number(k + 1, false)) == Rotated(fs, compress, Number(k + 1, false));
      assert Lookup(fs1, Number(k + 1, true)) == Rotated(fs, compress, Number(k + 1, true));
    }
    forall k, gz | k > n ensures Lookup(fs1, Number(k, gz)) == Lookup(fs, Number(k, gz)) {
      assert Lookup(fs1, Number(k, gz)) == Rotated(fs, compress, Number(k, gz));
    }
    forall k: nat ensures Number(k, false) in fs1 && Number(k, true) in fs1 <==> !compress && k == n && Number(n, true) in fs {
      assert Lookup(fs1, Number(k, false)) == Rotated(fs, compress, Number(k, false));
      assert Lookup(fs1, Number(k, true)) == Rotated(fs, compress, Number(k, true));
      if k < n { assert Exists(fs, compress, k); }
    }
  }

  /** The archives after writing and rotating away one log after the other, the latest first. */
  ghost predicate Archived(fs: Files, compress: bool, logs: seq<string>) {
    forall p :: p != BASE ==>
      Lookup(fs, p) == if p.Number? && p.gz == compress && p.k < |logs| then Some(Packed(compress, logs[|logs| - 1 - p.k])) else None
  }

  lemma FreeIsLength(fs: Files, compress: bool, logs: seq<string>)
    requires Archived(fs, compress, logs)
    ensures FirstFreeNumber(fs, compress) == |logs|
  {
    forall k: nat ensures Exists(fs, compress, k) <==> k < |logs| {
      assert Lookup(fs, Number(k, compress)).Some? <==> k < |logs|;
      assert Lookup(fs, Number(k, !compress)).None?;
    }
    assert Exists(fs, compress, |logs|) <==> |logs| < |logs|;
    FirstFreeIsUnique(fs, compress, |logs|);
  }

  lemma RotatedArchive(fs: Files, compress: bool, logs: seq<string>, p: Path)
    requires Archived(fs, compress, logs) && BASE in fs && p != BASE
    ensures Rotated(fs, compress, p) ==
            if p == Number(0, compress) then Some(Packed(compress, fs[BASE].data))
            else if p.Number? && p.gz == compress && p.k <= |logs| then Some(Packed(compress, logs[|logs| - p.k]))
            else None
  {
    FreeIsLength(fs, compress, logs);
    assert Lookup(fs, p).Some? ==> p.Number? && p.gz == compress && p.k < |logs|;
    if p.Number? && 0 < p.k <= |logs| {
      assert Lookup(fs, Number(p.k - 1, compress)) == Some(Packed(compress, logs[|logs| - p.k]));
      assert Lookup(fs, Number(p.k - 1, !compress)) == None;
    }
    hide FirstFreeNumber, Archived;
  }

  lemma ArchivedOnce(fs: Files, fs1: Files, compress: bool, logs: seq<string>, text: string)
    requires Archived(fs, compress, logs) && BASE in fs && fs[BASE] == Plain(text)
    requires forall p :: Lookup(fs1, p) == Rotated(fs, compress, p)
    ensures Archived(fs1, compress, logs + [text])
  {
    forall p | p != BASE
      ensures Lookup(fs1, p) ==
              if p.Number? && p.gz == compress && p.k < |logs + [text]| then Some(Packed(compress, (logs + [text])[|logs| - p.k]))
              else None
    {
      RotatedArchive(fs, compress, logs, p);
      hide Rotated, Archived;
      assert Lookup(fs1, p) == Rotated(fs, compress, p);
    }
    hide Rotated;
  }

  /** What the strategy has archived, counting what waits for the compressor as compressed. */
  ghost predicate Keeps(strategy: ArchiveStrategy, logs: seq<string>)
    reads strategy
  {
    QueueSound(strategy.fs, strategy.queue) && WellTyped(strategy.fs) && (strategy.compress || strategy.queue == [])
    && Archived(AtRest(strategy.fs, strategy.queue), strategy.compress, logs)
  }

  /** A log is written and rotated away, and the compressor gets on with its work, or does not. */
  method RotateOne(strategy: ArchiveStrategy, text: string, ghost logs: seq<string>)
    requires Keeps(strategy, logs)
    modifies strategy
    ensures Keeps(strategy, logs + [text]) && strategy.compress == old(strategy.compress)
  {
    ghost var fs0 := strategy.fs;
    strategy.fs := strategy.fs[BASE := Plain(text)];
    ghost var before := AtRest(strategy.fs, strategy.queue);
    LogWritten(fs0, strategy.queue, strategy.compress, logs, text);
    ArchivedIsSound(strategy.fs, strategy.queue, strategy.compress, logs);
    RestIsSound(strategy.fs, strategy.queue, strategy.compress);
    strategy.Archive();
    strategy.LetCompressorRun();
    ArchivedOnce(before, AtRest(strategy.fs, strategy.queue), strategy.compress, logs, text);
  }

  /** Any number of logs, each rotated away before the next, however far the compressor lags behind: once it is done, archive k
      holds the k-th last one. */
  method RotateAll(logs: seq<string>, compress: bool) returns (fs: Files)
    ensures Archived(fs, compress, logs)
  {
    var strategy := new ArchiveStrategy(map[], compress);
    for i := 0 to |logs|
      invariant strategy.compress == compress && fresh(strategy) && Keeps(strategy, logs[..i])
    {
      RotateOne(strategy, logs[i], logs[..i]);
      assert logs[..i + 1] == logs[..i] + [logs[i]];
    }
    assert logs[..|logs|] == logs;
    ghost var rest := AtRest(strategy.fs, strategy.queue);
    strategy.Drain();
    fs := strategy.fs;
    assert forall p :: Lookup(fs, p) == Lookup(rest, p);
  }

  lemma LogWritten(fs: Files, queue: seq<Path>, compress: bool, logs: seq<string>, text: string)
    requires QueueSound(fs, queue) && WellTyped(fs) && Archived(AtRest(fs, queue), compress, logs)
    ensures var fs1 := fs[BASE := Plain(text)];
            QueueSound(fs1, queue) && WellTyped(fs1) && Archived(AtRest(fs1, queue), compress, logs)
  {
    var fs1 := fs[BASE := Plain(text)];
    forall p | p != BASE ensures Lookup(AtRest(fs1, queue), p) == Lookup(AtRest(fs, queue), p) {
      assert Lookup(AtRest(fs1, queue), p) == Settled(fs1, queue, p);
      assert Lookup(AtRest(fs, queue), p) == Settled(fs, queue, p);
    }
  }

  /** Each archive is there in one form, even before the compressor is done. */
  lemma ArchivedIsSound(fs: Files, queue: seq<Path>, compress: bool, logs: seq<string>)
    requires BASE in fs && fs[BASE].Plain? && QueueSound(fs, queue)
    requires Archived(AtRest(fs, queue), compress, logs)
    ensures OneForm(fs)
  {
    forall k: nat | Number(k, false) in fs ensures Number(k, true) !in fs {
      var rest := AtRest(fs, queue);
      assert Lookup(rest, Number(k, false)) == Settled(fs, queue, Number(k, false));
      assert Lookup(rest, Number(k, true)) == Settled(fs, queue, Number(k, true));
    }
  }
}
