/** Every directory block a run of insertions and removals can reach (crates/ext2/src/dirent.rs). */
module DirentRun {
  import opened Wrappers
  import opened Le
  import opened Dirent

  /** An entry added where `room` found room first, or the `k`-th removed. */
  datatype Edit = Add(k: nat, name: Name, inode: u32, fileType: Option<byte>) | Drop(k: nat)

  /** A block, its entries and the names it should hold. */
  datatype State = State(block: Bytes, es: seq<Entry>, names: map<Name, nat>)

  /** What the driver asks of an edit: `add_entry` and `remove_entry` are for ordinary names. */
  ghost predicate Allowed(s: State, e: Edit, filetype: bool, maxInode: nat) {
    match e
    case Add(k, name, inode, fileType) =>
      && k < |s.es| && CanInsert(s.block, s.es[k], name) && (forall j :: 0 <= j < k ==> !HasRoom(s.es[j], |name|))
      && Ordinary(name) && 0 < inode <= maxInode && (fileType.Some? <==> filetype) && name !in s.names
    case Drop(k) =>
      && k < |s.es| && |s.block| <= U16_MAX && s.es[k].inode != 0 && Ordinary(NameOf(s.block, s.es[k]))
      && s.es[k].offset + HEADER <= |s.block|
      && (k > 0 ==> s.es[k - 1].offset + HEADER <= |s.block| && s.es[k - 1].recLen + s.es[k].recLen <= U16_MAX)
  }

  ghost function Edited(s: State, e: Edit, filetype: bool, maxInode: nat): State
    requires Allowed(s, e, filetype, maxInode)
  {
    match e
    case Add(k, name, inode, fileType) =>
      State(Insert(s.block, s.es[k], name, inode, fileType), Inserted(s.es, k, |name|, inode), s.names[name := inode])
    case Drop(k) =>
      State(Remove(s.block, s.es, k), Removed(s.es, k), s.names - {NameOf(s.block, s.es[k])})
  }

  /** `states` goes from one block to the next by `edits`. */
  ghost predicate IsRun(states: seq<State>, edits: seq<Edit>, filetype: bool, maxInode: nat) {
    && |states| == |edits| + 1
    && forall i :: 0 <= i < |edits| ==>
       Allowed(states[i], edits[i], filetype, maxInode)
       && states[i + 1] == Edited(states[i], edits[i], filetype, maxInode)
  }

  /** The block parses as `es`, `.` and `..` first if it is a directory's first, and holds just `names`. */
  ghost predicate Good(s: State, dots: Option<(nat, nat)>, filetype: bool, maxInode: nat) {
    Sound(s.block, s.es, dots, filetype, maxInode) && Listing(Pairs(s.block, s.es)) == s.names
  }

  lemma EditedGood(s: State, e: Edit, dots: Option<(nat, nat)>, filetype: bool, maxInode: nat)
    requires Good(s, dots, filetype, maxInode) && Allowed(s, e, filetype, maxInode)
    ensures Good(Edited(s, e, filetype, maxInode), dots, filetype, maxInode)
  {
    hide Sound, Listing, Pairs, Insert, Remove, Inserted, Removed;
    match e
    case Add(k, name, inode, fileType) =>
      SoundInsert(s.block, s.es, dots, k, name, inode, fileType, filetype, maxInode);
    case Drop(k) => SoundRemove(s.block, s.es, dots, k, filetype, maxInode);
  }

  /** Whatever is inserted and removed, every block of the run parses with records tiling it exactly, keeps
      `.` and `..` first, and holds the names added and not removed. */
  lemma {:induction false} RunGood(states: seq<State>, edits: seq<Edit>, dots: Option<(nat, nat)>, filetype: bool,
        maxInode: nat)
    requires IsRun(states, edits, filetype, maxInode) && Good(states[0], dots, filetype, maxInode)
    ensures forall i :: 0 <= i < |states| ==> Good(states[i], dots, filetype, maxInode)
    decreases |edits|
  {
    hide Good, Allowed;
    if edits != [] {
      var n := |edits| - 1;
      RunGood(states[..n + 1], edits[..n], dots, filetype, maxInode);
      assert states[n] == states[..n + 1][n];
      EditedGood(states[n], edits[n], dots, filetype, maxInode);
      forall i | 0 <= i < |states| ensures Good(states[i], dots, filetype, maxInode) {
        if i <= n { assert states[i] == states[..n + 1][i]; }
      }
    }
  }

  /** Runs start at a new directory's first block or at an empty block. */
  lemma StartGood(n: nat, inode: u32, parent: u32, filetype: bool, maxInode: nat)
    requires 24 <= n <= U16_MAX && n % 4 == 0 && 0 < inode <= maxInode && 0 < parent <= maxInode
    ensures Good(State(InitDir(n, inode, parent, filetype), [Entry(0, inode, 12, 1), Entry(12, parent, n - 12, 2)],
            map[DOT := inode, DOTDOT := parent]),
                 Some((inode, parent)), filetype, maxInode)
    ensures Good(State(InitEmpty(n), [Entry(0, 0, n, 0)], map[]), None, filetype, maxInode)
  {
    hide Sound, InitDir, InitEmpty;
    SoundDir(n, inode, parent, filetype, maxInode);
    InitDirOk(n, inode, parent, filetype, maxInode);
    SoundEmpty(n, filetype, maxInode);
    InitEmptyOk(n, filetype, maxInode);
  }
}
