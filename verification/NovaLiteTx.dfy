/** Building, committing and recovering a lite-journal transaction (nova/journal.c), on byte
    pointers into the journal page. */
module NovaLiteTx {
  import opened Options
  import opened NovaLiteJournal

  /** Undo entries for some words, all read at one moment. */
  function Saved(addrs: seq<nat>, m: Mem): (w: seq<Rec>)
    ensures |w| == |addrs| && forall i | 0 <= i < |w| :: w[i] == Rec(addrs[i], Get(m, addrs[i]))
  {
    seq(|addrs|, i requires 0 <= i < |addrs| => Rec(addrs[i], Get(m, addrs[i])))
  }

  function Aligned(field: nat): nat { field - field % 8 }

  /** Fields of an inode that the journal saves, by address. */
  datatype Inode = Inode(valid: nat, logTail: nat, deleteEpoch: nat)

  /** nova_append_inode_journal, in the order of its entries. */
  function InodeFields(pi: Inode, newInode: bool, invalidate: bool, isDir: bool): (r: seq<nat>)
    ensures 1 <= |r| <= 3 && (isDir || !invalidate ==> |r| == 1)
  {
    if isDir then [pi.logTail]
    else if newInode then [pi.valid]
    else [pi.logTail] + (if invalidate then [pi.valid, pi.deleteEpoch] else [])
  }

  function AlignAll(fs: seq<nat>): (r: seq<nat>)
    ensures |r| == |fs| && forall i | 0 <= i < |r| :: r[i] == Aligned(fs[i])
  {
    seq(|fs|, i requires 0 <= i < |fs| => Aligned(fs[i]))
  }

  function CreateFields(pi: Inode, dir: Inode, newInode: bool, invalidate: bool): seq<nat> {
    InodeFields(pi, newInode, invalidate, false) + InodeFields(dir, newInode, invalidate, true)
  }

  function RenameFields(oldInode: Inode, oldDir: Inode, newInode: Option<Inode>, newDir: Option<Inode>,
                        father: Option<(nat, nat)>, invalidateNew: bool): seq<nat>
  {
    InodeFields(oldInode, false, false, false) + InodeFields(oldDir, false, false, true)
    + (if newInode.Some? then InodeFields(newInode.value, false, invalidateNew, false) else [])
    + (if newDir.Some? then InodeFields(newDir.value, false, false, true) else [])
    + (if father.Some? then [father.value.0, father.value.1] else [])
  }

  function WordFields(entry: nat, count: nat): (r: seq<nat>)
    ensures |r| == count && forall i | 0 <= i < count :: r[i] == entry + i * 8
  {
    seq(count, i requires 0 <= i < count => entry + i * 8)
  }

  /** No transaction comes near filling the ring. */
  lemma FieldCounts(a: Inode, b: Inode, c: Option<Inode>, d: Option<Inode>, f: Option<(nat, nat)>, x: bool, y: bool)
    ensures 2 <= |CreateFields(a, b, x, y)| <= 4 && 2 <= |RenameFields(a, b, c, d, f, x)| <= 8
  {
  }

  class LiteJournal {
    const base: nat
    var mem: Mem
    var ring: Ring
    var head: nat
    var tail: nat
    ghost var h: nat       // the slot of the head
    ghost var n: nat       // entries between head and tail

    ghost predicate Valid()
      reads this
    {
      base % PAGE == 0 && h < SLOTS && n < SLOTS && head == Ptr(base, h) && tail == Ptr(base, Slot(h, n))
    }

    ghost function Entries(): seq<Rec>
      requires Valid()
      reads this
    {
      Window(ring, h, n)
    }

    /** The fields `fs` are in the ring from the head on, and `p` points behind them. */
    ghost predicate Filled(p: nat, fs: seq<nat>)
      requires Valid()
      reads this
    {
      p == Ptr(base, Slot(h, |fs|)) && Window(ring, h, |fs|) == Saved(AlignAll(fs), mem)
    }

    /** nova_append_entry_journal: at `p`, the place `k` of the transaction. */
    method AppendEntry(p: nat, field: nat, ghost done: seq<nat>) returns (p': nat)
      requires Valid() && |done| + 1 < SLOTS && Filled(p, done)
      modifies this`ring
      ensures Valid() && Filled(p', done + [field])
    {
      ghost var k := |done|;
      var a := Aligned(field);
      EntrySlot(base, Slot(h, k));
      ghost var ring0 := ring;
      ring := ring[(p % PAGE) / ENTRY := Rec(a, Get(mem, a))];
      p' := NextPtr(p);
      NextPtrSlot(base, Slot(h, k));
      NextSlot(h, k);
      WindowGrows(ring0, ring, h, k, Rec(a, Get(mem, a)));
      assert AlignAll(done + [field]) == AlignAll(done) + [a];
      assert Saved(AlignAll(done) + [a], mem) == Saved(AlignAll(done), mem) + [Rec(a, Get(mem, a))];
    }

    method AppendInode(p: nat, pi: Inode, newInode: bool, invalidate: bool, isDir: bool, ghost done: seq<nat>)
      returns (p': nat)
      requires Valid() && |done| + 3 < SLOTS && Filled(p, done)
      modifies this`ring
      ensures Valid() && Filled(p', done + InodeFields(pi, newInode, invalidate, isDir))
    {
      hide Filled;
      if isDir {
        p' := AppendEntry(p, pi.logTail, done);
      } else if newInode {
        p' := AppendEntry(p, pi.valid, done);
      } else {
        p' := AppendEntry(p, pi.logTail, done);
        if invalidate {
          p' := AppendEntry(p', pi.valid, done + [pi.logTail]);
          p' := AppendEntry(p', pi.deleteEpoch, done + [pi.logTail] + [pi.valid]);
          assert done + [pi.logTail] + [pi.valid] + [pi.deleteEpoch] == done
              + ([pi.logTail] + [pi.valid, pi.deleteEpoch]);
        } else {
          assert done + ([pi.logTail] + []) == done + [pi.logTail];
        }
      }
    }

    method AppendIfAny(p: nat, pi: Option<Inode>, invalidate: bool, isDir: bool, ghost done: seq<nat>) returns (p': nat)
      requires Valid() && |done| + 3 < SLOTS && Filled(p, done)
      modifies this`ring
      ensures Valid() && Filled(p', done + if pi.Some? then InodeFields(pi.value, false, invalidate, isDir) else [])
    {
      p' := p;
      if pi.Some? {
        p' := AppendInode(p, pi.value, false, invalidate, isDir, done);
      } else {
        assert done + [] == done;
      }
    }

    /** nova_append_dentry_journal. */
    method AppendDentry(p: nat, d: Option<(nat, nat)>, ghost done: seq<nat>) returns (p': nat)
      requires Valid() && |done| + 3 < SLOTS && Filled(p, done)
      modifies this`ring
      ensures Valid() && Filled(p', done + if d.Some? then [d.value.0, d.value.1] else [])
    {
      hide Filled;
      p' := p;
      if d.Some? {
        p' := AppendEntry(p', d.value.0, done);
        p' := AppendEntry(p', d.value.1, done + [d.value.0]);
        assert done + [d.value.0] + [d.value.1] == done + [d.value.0, d.value.1];
      } else {
        assert done + [] == done;
      }
    }

    /** The last steps of every creator: write back, then move the tail. */
    method MoveTail(p: nat, ghost done: seq<nat>)
      requires Valid() && head == tail && 0 < |done| < SLOTS && Filled(p, done)
      modifies this`tail, this`n
      ensures Valid() && tail == p && head != tail && Entries() == Saved(AlignAll(done), mem)
    {
      SlotsApart(h, 0, |done|);
      tail, n := p, |done|;
    }

    /** nova_create_inode_transaction; the journal must be empty. */
    method CreateInodeTransaction(pi: Inode, dir: Inode, newInode: bool, invalidate: bool) returns (t: nat)
      requires Valid() && head == tail
      modifies this`ring, this`tail, this`n
      ensures Valid() && t == tail && head != tail
      ensures Entries() == Saved(AlignAll(CreateFields(pi, dir, newInode, invalidate)), mem)
    {
      hide Filled, InodeFields;
      Empty();
      t := head;
      t := AppendInode(t, pi, newInode, invalidate, false, []);
      ghost var done := [] + InodeFields(pi, newInode, invalidate, false);
      t := AppendInode(t, dir, newInode, invalidate, true, done);
      assert done == InodeFields(pi, newInode, invalidate, false);
      MoveTail(t, CreateFields(pi, dir, newInode, invalidate));
    }

    /** nova_create_rename_transaction. */
    method CreateRenameTransaction(oldInode: Inode, oldDir: Inode, newInode: Option<Inode>, newDir: Option<Inode>,
                                   father: Option<(nat, nat)>, invalidateNew: bool) returns (t: nat)
      requires Valid() && head == tail
      modifies this`ring, this`tail, this`n
      ensures Valid() && t == tail && head != tail
      ensures Entries() == Saved(AlignAll(RenameFields(oldInode, oldDir, newInode, newDir, father, invalidateNew)), mem)
    {
      hide Filled, InodeFields;
      Empty();
      t := head;
      t := AppendInode(t, oldInode, false, false, false, []);
      ghost var f1 := [] + InodeFields(oldInode, false, false, false);
      t := AppendInode(t, oldDir, false, false, true, f1);
      ghost var f2 := f1 + InodeFields(oldDir, false, false, true);
      t := AppendIfAny(t, newInode, invalidateNew, false, f2);
      ghost var f3 := f2 + if newInode.Some? then InodeFields(newInode.value, false, invalidateNew, false) else [];
      t := AppendIfAny(t, newDir, false, true, f3);
      ghost var f4 := f3 + if newDir.Some? then InodeFields(newDir.value, false, false, true) else [];
      t := AppendDentry(t, father, f4);
      ghost var f5 := f4 + if father.Some? then [father.value.0, father.value.1] else [];
      assert f1 == InodeFields(oldInode, false, false, false);
      assert f5 == RenameFields(oldInode, oldDir, newInode, newDir, father, invalidateNew);
      MoveTail(t, f5);
    }

    /** nova_create_logentry_transaction on an entry of `size` bytes. */
    method CreateLogentryTransaction(entry: nat, size: nat) returns (t: nat)
      requires Valid() && head == tail && 8 <= size <= 64
      modifies this`ring, this`tail, this`n
      ensures Valid() && t == tail && head != tail && Entries() == Saved(AlignAll(WordFields(entry, size / 8)), mem)
    {
      hide Filled;
      Empty();
      t := head;
      var count := size / 8;
      assert WordFields(entry, 0) == [];
      for i := 0 to count
        invariant Valid() && head == tail && mem == old(mem) && Filled(t, WordFields(entry, i))
      {
        t := AppendEntry(t, entry + i * 8, WordFields(entry, i));
        assert WordFields(entry, i + 1) == WordFields(entry, i) + [entry + i * 8];
      }
      MoveTail(t, WordFields(entry, count));
    }

    lemma Empty()
      requires Valid() && head == tail
      ensures Filled(head, [])
    {
      if n > 0 { SlotsApart(h, 0, n); }
      assert Slot(h, 0) == h;
    }

    /** nova_commit_lite_transaction. */
    method Commit(t: nat)
      requires Valid() && t == tail
      modifies this`head, this`h, this`n
      ensures Valid() && head == tail && Entries() == []
    {
      head := t;
      h, n := Slot(h, n), 0;
      assert Slot(h, 0) == h;
    }

    /** nova_recover_lite_journal. */
    method Recover()
      requires Valid()
      modifies this`mem, this`tail, this`n
      ensures Valid() && head == tail && mem == Undo(old(mem), old(Entries()))
    {
      ghost var w, i := Entries(), 0;
      var temp := head;
      assert Slot(h, 0) == h && w[0..] == w;
      while temp != tail
        invariant i <= n == |w| && temp == Ptr(base, Slot(h, i)) && ring == old(ring) && n == old(n)
        invariant tail == old(tail)
        invariant Undo(mem, w[i..]) == Undo(old(mem), w)
        decreases n - i
      {
        var slot := (temp % PAGE) / ENTRY;
        EntrySlot(base, Slot(h, i));
        var e := ring[slot];
        assert e == w[i] && w[i..][1..] == w[i + 1..];
        mem := mem[e.addr := e.old'];
        NextPtrSlot(base, Slot(h, i));
        NextSlot(h, i);
        temp := NextPtr(temp);
        i := i + 1;
      }
      SameSlot(base, h, i, n);
      assert w[n..] == [];
      tail := head;
      n := 0;
    }
  }

  lemma EntrySlot(base: nat, s: nat)
    requires base % PAGE == 0 && s < SLOTS
    ensures (Ptr(base, s) % PAGE) / ENTRY == s
  {
    PtrOffset(base, s);
  }

  lemma WindowGrows(r: Ring, r': Ring, h: nat, k: nat, x: Rec)
    requires h < SLOTS && k < SLOTS && r' == r[Slot(h, k) := x]
    ensures Window(r', h, k + 1) == Window(r, h, k) + [x]
  {
    forall i | 0 <= i < k ensures r'[Slot(h, i)] == r[Slot(h, i)] { SlotsApart(h, i, k); }
  }

  lemma SameSlot(base: nat, h: nat, i: nat, n: nat)
    requires h < SLOTS && i <= n < SLOTS && Ptr(base, Slot(h, i)) == Ptr(base, Slot(h, n))
    ensures i == n
  {
    if i < n { SlotsApart(h, i, n); }
  }
}
