/**
 * The parsing half of `recurse` in libtree.c: the ELF header checks, the program-header
 * scan, the dynamic-section scan and the translation of the string-table address to a
 * file offset. Layouts and constants are those of the System V gABI, chapter 4 ("ELF
 * Header") and chapter 5 ("Program Header", "Dynamic Section"), for 64-bit
 * little-endian files, read the way libtree.c reads them: consecutive `fread`s of fixed
 * structs after one `fseek`.
 */
module ElfDecode {
  import opened Wrappers
  import opened ElfBytes

  const ET_EXEC: int := 2
  const ET_DYN: int := 3
  const PT_LOAD: int := 1
  const PT_DYNAMIC: int := 2
  const DT_NULL: int := 0
  const DT_NEEDED: int := 1
  const DT_STRTAB: int := 5
  const DT_SONAME: int := 14
  const DT_RPATH: int := 15
  const DT_RUNPATH: int := 29

  /** `e_ident`, then `struct h_64`: the header ends at byte 64. */
  const IDENT_SIZE: int := 16
  const HEADER_END: int := 64
  /** `sizeof(struct ph_64)` and `sizeof(struct dynamic_64)`; `e_phentsize` is not consulted. */
  const PHDR_SIZE: int := 56
  const DYN_SIZE: int := 16

  /** Why the header stage gave up; `Code` is the value `recurse` returns. */
  datatype HeaderError =
    | InvalidMagic | InvalidClass | InvalidData | UnsupportedElf | InvalidHeader
    | NotLoadable | PhSeekFailed | PhReadFailed
  {
    function Code(): (c: int)
      ensures c in {1, 7, 8, 9}
    {
      match this
      case NotLoadable => 7
      case PhSeekFailed => 8
      case PhReadFailed => 9
      case _ => 1
    }
  }

  /** `(p_offset, p_vaddr)` of one `PT_LOAD` entry. */
  datatype Load = Load(offset: nat, vaddr: nat)

  /**
   * The outcome of the header stage: the `PT_LOAD` pairs in file order and the
   * `p_offset` of the dynamic section (`MAX_SIZE_T` when there is none).
   */
  datatype Header = HeaderFailed(error: HeaderError) | HeaderOk(loads: seq<Load>, dynamic: nat)

  predicate HasMagic(f: seq<Byte>)
    requires |f| >= IDENT_SIZE
  {
    // 0x7f 'E' 'L' 'F'
    f[0] == 0x7f && f[1] == 0x45 && f[2] == 0x4C && f[3] == 0x46
  }

  function EType(f: seq<Byte>): nat
    requires |f| >= HEADER_END
  {
    LE16(f, 16)
  }

  function PhOff(f: seq<Byte>): nat
    requires |f| >= HEADER_END
  {
    LE64(f, 32)
  }

  function PhNum(f: seq<Byte>): nat
    requires |f| >= HEADER_END
  {
    LE16(f, 56)
  }

  /** All `n` program-header entries starting at `phoff` can be read. */
  predicate PhTableFits(f: seq<Byte>, phoff: nat, n: nat)
  {
    n == 0 || phoff + PHDR_SIZE * n <= |f|
  }

  function PhType(f: seq<Byte>, phoff: nat, i: nat): nat
    requires Fits(f, phoff + PHDR_SIZE * i, PHDR_SIZE)
  {
    LE32(f, phoff + PHDR_SIZE * i)
  }

  function PhLoad(f: seq<Byte>, phoff: nat, i: nat): Load
    requires Fits(f, phoff + PHDR_SIZE * i, PHDR_SIZE)
  {
    Load(LE64(f, phoff + PHDR_SIZE * i + 8), LE64(f, phoff + PHDR_SIZE * i + 16))
  }

  /** The `PT_LOAD` pairs among the first `n` entries, in file order. */
  function Loads(f: seq<Byte>, phoff: nat, n: nat): seq<Load>
    requires PhTableFits(f, phoff, n)
  {
    if n == 0 then []
    else Loads(f, phoff, n - 1) + (if PhType(f, phoff, n - 1) == PT_LOAD then [PhLoad(f, phoff, n - 1)] else [])
  }

  /** The `p_offset` of the last `PT_DYNAMIC` among the first `n` entries, or `MAX_SIZE_T`. */
  function DynamicOffset(f: seq<Byte>, phoff: nat, n: nat): nat
    requires PhTableFits(f, phoff, n)
  {
    if n == 0 then MAX_SIZE_T
    else if PhType(f, phoff, n - 1) == PT_DYNAMIC then PhLoad(f, phoff, n - 1).offset
    else DynamicOffset(f, phoff, n - 1)
  }

  /** A whole header with the magic, of class 64-bit (`2`) and little-endian data (`1`). */
  predicate Supported(f: seq<Byte>)
  {
    |f| >= HEADER_END && HasMagic(f) && f[4] == 2 && f[5] == 1
  }

  /**
   * The header stage of `recurse`, checks in the order the code makes them. Each
   * check only looks at bytes the earlier ones accepted: a supported header of the
   * wrong type gives 7, one whose program headers cannot be reached gives 8, one whose
   * program headers cannot all be read gives 9, and any other is accepted with its
   * loads and dynamic offset.
   */
  function HeaderOf(f: seq<Byte>): (h: Header)
    ensures (|f| < IDENT_SIZE || !HasMagic(f)) ==> h == HeaderFailed(InvalidMagic)
    ensures h.HeaderOk? <==>
              Supported(f) && EType(f) in {ET_EXEC, ET_DYN} && SeekOk(PhOff(f)) && PhTableFits(f, PhOff(f), PhNum(f))
    ensures h.HeaderFailed? && h.error == NotLoadable ==> |f| >= HEADER_END && EType(f) !in {ET_EXEC, ET_DYN}
    ensures Supported(f) && EType(f) !in {ET_EXEC, ET_DYN} ==> h == HeaderFailed(NotLoadable)
    ensures Supported(f) && EType(f) in {ET_EXEC, ET_DYN} && !SeekOk(PhOff(f)) ==> h == HeaderFailed(PhSeekFailed)
    ensures Supported(f) && EType(f) in {ET_EXEC, ET_DYN} && SeekOk(PhOff(f)) && !PhTableFits(f, PhOff(f), PhNum(f))
            ==> h == HeaderFailed(PhReadFailed)
    ensures h.HeaderOk? ==> PhTableFits(f, PhOff(f), PhNum(f))
                            && h == HeaderOk(Loads(f, PhOff(f), PhNum(f)), DynamicOffset(f, PhOff(f), PhNum(f)))
  {
    if |f| < IDENT_SIZE || !HasMagic(f) then HeaderFailed(InvalidMagic)
    else if f[4] != 1 && f[4] != 2 then HeaderFailed(InvalidClass)
    else if f[5] != 1 && f[5] != 2 then HeaderFailed(InvalidData)
    else if f[4] != 2 || f[5] != 1 then HeaderFailed(UnsupportedElf)
    else if |f| < HEADER_END then HeaderFailed(InvalidHeader)
    else if EType(f) != ET_EXEC && EType(f) != ET_DYN then HeaderFailed(NotLoadable)
    else if !SeekOk(PhOff(f)) then HeaderFailed(PhSeekFailed)
    else if !PhTableFits(f, PhOff(f), PhNum(f)) then HeaderFailed(PhReadFailed)
    else HeaderOk(Loads(f, PhOff(f), PhNum(f)), DynamicOffset(f, PhOff(f), PhNum(f)))
  }

  /** libtree.c's header checks and program-header loop. */
  method ReadHeader(f: seq<Byte>) returns (h: Header)
    ensures h == HeaderOf(f)
  {
    if |f| < IDENT_SIZE || !HasMagic(f) {
      return HeaderFailed(InvalidMagic);
    }
    if f[4] != 1 && f[4] != 2 {
      return HeaderFailed(InvalidClass);
    }
    if f[5] != 1 && f[5] != 2 {
      return HeaderFailed(InvalidData);
    }
    if f[4] != 2 || f[5] != 1 {
      return HeaderFailed(UnsupportedElf);
    }
    if |f| < HEADER_END {
      return HeaderFailed(InvalidHeader);
    }
    if EType(f) != ET_EXEC && EType(f) != ET_DYN {
      return HeaderFailed(NotLoadable);
    }
    var phoff := PhOff(f);
    if !SeekOk(phoff) {
      return HeaderFailed(PhSeekFailed);
    }
    var phnum := PhNum(f);
    var loads: seq<Load> := [];
    var dynamic := MAX_SIZE_T;
    var pos := phoff;
    var i := 0;
    while i < phnum
      invariant 0 <= i <= phnum
      invariant pos == phoff + PHDR_SIZE * i
      invariant PhTableFits(f, phoff, i)
      invariant loads == Loads(f, phoff, i)
      invariant dynamic == DynamicOffset(f, phoff, i)
    {
      if !Fits(f, pos, PHDR_SIZE) {
        return HeaderFailed(PhReadFailed);
      }
      PhStep(f, phoff, i);
      var pType := LE32(f, pos);
      if pType == PT_LOAD {
        loads := loads + [Load(LE64(f, pos + 8), LE64(f, pos + 16))];
      } else if pType == PT_DYNAMIC {
        dynamic := LE64(f, pos + 8);
      }
      pos := pos + PHDR_SIZE;
      i := i + 1;
    }
    return HeaderOk(loads, dynamic);
  }

  /** One more program-header entry read. */
  lemma PhStep(f: seq<Byte>, phoff: nat, i: nat)
    requires PhTableFits(f, phoff, i) && Fits(f, phoff + PHDR_SIZE * i, PHDR_SIZE)
    ensures PhTableFits(f, phoff, i + 1)
    ensures Loads(f, phoff, i + 1)
            == Loads(f, phoff, i) + (if PhType(f, phoff, i) == PT_LOAD then [PhLoad(f, phoff, i)] else [])
    ensures DynamicOffset(f, phoff, i + 1)
            == if PhType(f, phoff, i) == PT_DYNAMIC then PhLoad(f, phoff, i).offset else DynamicOffset(f, phoff, i)
  {
  }

  /** The `PT_LOAD` pairs are kept in file order: reading more entries only extends the list. */
  lemma {:induction false} LoadsInFileOrder(f: seq<Byte>, phoff: nat, m: nat, n: nat)
    requires m <= n && PhTableFits(f, phoff, n)
    ensures PhTableFits(f, phoff, m)
    ensures Loads(f, phoff, m) <= Loads(f, phoff, n)
    ensures forall i :: m <= i < n && PhType(f, phoff, i) == PT_LOAD ==> PhLoad(f, phoff, i) in Loads(f, phoff, n)
    decreases n
  {
    if m < n {
      LoadsInFileOrder(f, phoff, m, n - 1);
    }
  }

  /** Without a `PT_DYNAMIC` entry the dynamic-section offset stays `MAX_SIZE_T`. */
  lemma {:induction false} NoDynamicEntry(f: seq<Byte>, phoff: nat, n: nat)
    requires PhTableFits(f, phoff, n)
    requires forall i :: 0 <= i < n ==> PhType(f, phoff, i) != PT_DYNAMIC
    ensures DynamicOffset(f, phoff, n) == MAX_SIZE_T
  {
    if n > 0 {
      NoDynamicEntry(f, phoff, n - 1);
    }
  }

  /** The last `PT_DYNAMIC` entry decides the dynamic-section offset. */
  lemma {:induction false} LastDynamicWins(f: seq<Byte>, phoff: nat, n: nat, k: nat)
    requires PhTableFits(f, phoff, n) && k < n
    requires PhType(f, phoff, k) == PT_DYNAMIC
    requires forall j :: k < j < n ==> PhType(f, phoff, j) != PT_DYNAMIC
    ensures DynamicOffset(f, phoff, n) == PhLoad(f, phoff, k).offset
  {
    if k < n - 1 {
      LastDynamicWins(f, phoff, n - 1, k);
    }
  }

  /** One `(d_tag, d_val)` pair; `d_tag` is the low 32 bits of the entry. */
  datatype DynEntry = DynEntry(tag: nat, val: nat)

  function DynAt(f: seq<Byte>, pos: nat): DynEntry
    requires Fits(f, pos, DYN_SIZE)
  {
    DynEntry(LE32(f, pos), LE64(f, pos + 8))
  }

  /**
   * The entries read from `pos` up to, not including, the first `DT_NULL`; `None`
   * when a read runs past the end of the file first.
   */
  function EntriesFrom(f: seq<Byte>, pos: nat): Option<seq<DynEntry>>
    decreases |f| - pos
  {
    if !Fits(f, pos, DYN_SIZE) then None
    else if DynAt(f, pos).tag == DT_NULL then Some([])
    else match EntriesFrom(f, pos + DYN_SIZE)
      case None => None
      case Some(rest) => Some([DynAt(f, pos)] + rest)
  }

  /**
   * The scan reads consecutive entries, none of them `DT_NULL`, and stops at the first
   * `DT_NULL`.
   */
  lemma EntriesStopAtNull(f: seq<Byte>, pos: nat)
    requires EntriesFrom(f, pos).Some?
    ensures var es := EntriesFrom(f, pos).value;
            Fits(f, pos + DYN_SIZE * |es|, DYN_SIZE) && DynAt(f, pos + DYN_SIZE * |es|).tag == DT_NULL
            && forall k :: 0 <= k < |es| ==>
                 Fits(f, pos + DYN_SIZE * k, DYN_SIZE) && es[k] == DynAt(f, pos + DYN_SIZE * k) && es[k].tag != DT_NULL
  {
    var es := EntriesFrom(f, pos).value;
    EntriesEndAtNull(f, pos);
    forall k | 0 <= k < |es|
      ensures Fits(f, pos + DYN_SIZE * k, DYN_SIZE) && es[k] == DynAt(f, pos + DYN_SIZE * k) && es[k].tag != DT_NULL
    {
      EntryAt(f, pos, k);
    }
  }

  /** The scan ends at a `DT_NULL` entry right after the last one it keeps. */
  lemma {:induction false} EntriesEndAtNull(f: seq<Byte>, pos: nat)
    requires EntriesFrom(f, pos).Some?
    ensures var n := |EntriesFrom(f, pos).value|;
            Fits(f, pos + DYN_SIZE * n, DYN_SIZE) && DynAt(f, pos + DYN_SIZE * n).tag == DT_NULL
    decreases |f| - pos
  {
    var es := EntriesFrom(f, pos).value;
    if es != [] {
      EntriesEndAtNull(f, pos + DYN_SIZE);
      var rest := EntriesFrom(f, pos + DYN_SIZE).value;
      assert |es| == 1 + |rest|;
      assert pos + DYN_SIZE * |es| == pos + DYN_SIZE + DYN_SIZE * |rest|;
    }
  }

  /** The `k`-th entry kept is the one `k` entries after the start, and is not `DT_NULL`. */
  lemma {:induction false} EntryAt(f: seq<Byte>, pos: nat, k: nat)
    requires EntriesFrom(f, pos).Some? && k < |EntriesFrom(f, pos).value|
    ensures var es := EntriesFrom(f, pos).value;
            Fits(f, pos + DYN_SIZE * k, DYN_SIZE) && es[k] == DynAt(f, pos + DYN_SIZE * k) && es[k].tag != DT_NULL
    decreases k
  {
    var es := EntriesFrom(f, pos).value;
    var rest := EntriesFrom(f, pos + DYN_SIZE).value;
    assert es == [DynAt(f, pos)] + rest;
    if k > 0 {
      EntryAt(f, pos + DYN_SIZE, k - 1);
      assert es[k] == rest[k - 1];
      assert pos + DYN_SIZE * k == pos + DYN_SIZE + DYN_SIZE * (k - 1);
    }
  }

  /** One step of the scan past an entry that is not `DT_NULL`. */
  lemma EntriesStep(f: seq<Byte>, pos: nat)
    requires Fits(f, pos, DYN_SIZE) && DynAt(f, pos).tag != DT_NULL
    ensures EntriesFrom(f, pos).Some? <==> EntriesFrom(f, pos + DYN_SIZE).Some?
    ensures EntriesFrom(f, pos).Some? ==> EntriesFrom(f, pos).value == [DynAt(f, pos)] + EntriesFrom(f, pos + DYN_SIZE).value
  {
  }

  /** What the dynamic scan remembers; the unset ones stay `MAX_SIZE_T`. */
  datatype DynInfo = DynInfo(strtab: nat, rpath: nat, runpath: nat, soname: nat, needed: seq<nat>)

  const NoDynInfo: DynInfo := DynInfo(MAX_SIZE_T, MAX_SIZE_T, MAX_SIZE_T, MAX_SIZE_T, [])

  /** The `switch (dyn.d_tag)` of the scan, for one non-`DT_NULL` entry. */
  function Record(d: DynInfo, e: DynEntry): DynInfo
  {
    if e.tag == DT_STRTAB then d.(strtab := e.val)
    else if e.tag == DT_RPATH then d.(rpath := e.val)
    else if e.tag == DT_RUNPATH then d.(runpath := e.val)
    else if e.tag == DT_NEEDED then d.(needed := d.needed + [e.val])
    else if e.tag == DT_SONAME then d.(soname := e.val)
    else d
  }

  /** The entries recorded from first to last. */
  function Summarize(es: seq<DynEntry>): DynInfo
  {
    if es == [] then NoDynInfo else Record(Summarize(es[..|es| - 1]), es[|es| - 1])
  }

  /** The `d_val`s of the `DT_NEEDED` entries, in entry order: a reference definition. */
  function NeededVals(es: seq<DynEntry>): seq<nat>
  {
    if es == [] then []
    else (if es[0].tag == DT_NEEDED then [es[0].val] else []) + NeededVals(es[1..])
  }

  lemma {:induction false} NeededValsSnoc(es: seq<DynEntry>, e: DynEntry)
    ensures NeededVals(es + [e]) == NeededVals(es) + (if e.tag == DT_NEEDED then [e.val] else [])
  {
    if es != [] {
      assert (es + [e])[1..] == es[1..] + [e];
      NeededValsSnoc(es[1..], e);
    } else {
      assert [e][1..] == [];
    }
  }

  /** `DT_NEEDED` offsets are appended in entry order, none dropped and none added. */
  lemma {:induction false} NeededInEntryOrder(es: seq<DynEntry>)
    ensures Summarize(es).needed == NeededVals(es)
  {
    if es != [] {
      var init := es[..|es| - 1];
      NeededInEntryOrder(init);
      NeededValsSnoc(init, es[|es| - 1]);
      assert init + [es[|es| - 1]] == es;
    }
  }

  /** The field of `d` that an entry with tag `t` overwrites. */
  function Slot(d: DynInfo, t: nat): nat
    requires t in {DT_STRTAB, DT_RPATH, DT_RUNPATH, DT_SONAME}
  {
    if t == DT_STRTAB then d.strtab
    else if t == DT_RPATH then d.rpath
    else if t == DT_RUNPATH then d.runpath
    else d.soname
  }

  /** For `DT_STRTAB`, `DT_RPATH`, `DT_RUNPATH` and `DT_SONAME` the last entry wins. */
  lemma {:induction false} LastEntryWins(es: seq<DynEntry>, t: nat)
    requires t in {DT_STRTAB, DT_RPATH, DT_RUNPATH, DT_SONAME}
    ensures (forall k :: 0 <= k < |es| ==> es[k].tag != t) ==> Slot(Summarize(es), t) == MAX_SIZE_T
    ensures forall k :: 0 <= k < |es| && es[k].tag == t && (forall j :: k < j < |es| ==> es[j].tag != t)
                     ==> Slot(Summarize(es), t) == es[k].val
  {
    if es != [] {
      var init, e := es[..|es| - 1], es[|es| - 1];
      LastEntryWins(init, t);
      SlotRecord(Summarize(init), e, t);
      assert Summarize(es) == Record(Summarize(init), e);
      forall k | 0 <= k < |es| && es[k].tag == t && (forall j :: k < j < |es| ==> es[j].tag != t)
        ensures Slot(Summarize(es), t) == es[k].val
      {
        if k < |init| {
          assert e.tag != t;
          assert init[k] == es[k];
          assert forall j :: k < j < |init| ==> init[j].tag != t by {
            forall j | k < j < |init| ensures init[j].tag != t { assert init[j] == es[j]; }
          }
        }
      }
      if forall k :: 0 <= k < |es| ==> es[k].tag != t {
        assert e.tag != t;
        assert forall k :: 0 <= k < |init| ==> init[k].tag != t by {
          forall k | 0 <= k < |init| ensures init[k].tag != t { assert init[k] == es[k]; }
        }
      }
    }
  }

  /** Recording an entry overwrites the slot of its own tag and no other. */
  lemma SlotRecord(d: DynInfo, e: DynEntry, t: nat)
    requires t in {DT_STRTAB, DT_RPATH, DT_RUNPATH, DT_SONAME}
    ensures Slot(Record(d, e), t) == if e.tag == t then e.val else Slot(d, t)
  {
  }

  /** The dynamic stage of `recurse`: return codes 10, 11 and 14, or what was recorded. */
  datatype Dynamic = DynFailed(code: int) | DynOk(info: DynInfo)

  /**
   * The dynamic stage of `recurse`: 10 when the section cannot be reached, 11 when the
   * entries run out before a `DT_NULL`, 14 when they hold no `DT_STRTAB`, and otherwise
   * what the entries record.
   */
  function DynamicOf(f: seq<Byte>, offset: nat): (r: Dynamic)
    ensures r.DynFailed? ==> r.code in {10, 11, 14}
    ensures r.DynOk? ==> r.info.strtab != MAX_SIZE_T
    ensures !SeekOk(offset) ==> r == DynFailed(10)
    ensures SeekOk(offset) && EntriesFrom(f, offset).None? ==> r == DynFailed(11)
    ensures SeekOk(offset) && EntriesFrom(f, offset).Some? && Summarize(EntriesFrom(f, offset).value).strtab == MAX_SIZE_T
            ==> r == DynFailed(14)
    ensures r.DynOk? ==> EntriesFrom(f, offset).Some? && r.info == Summarize(EntriesFrom(f, offset).value)
  {
    if !SeekOk(offset) then DynFailed(10)
    else match EntriesFrom(f, offset)
      case None => DynFailed(11)
      case Some(es) =>
        if Summarize(es).strtab == MAX_SIZE_T then DynFailed(14) else DynOk(Summarize(es))
  }

  /** libtree.c's loop over the dynamic entries. */
  method ReadDynamic(f: seq<Byte>, offset: nat) returns (r: Dynamic)
    ensures r == DynamicOf(f, offset)
  {
    if !SeekOk(offset) {
      return DynFailed(10);
    }
    var d := NoDynInfo;
    var pos := offset;
    ghost var seen: seq<DynEntry> := [];
    while true
      invariant pos == offset + DYN_SIZE * |seen|
      invariant d == Summarize(seen)
      invariant EntriesFrom(f, offset).Some? <==> EntriesFrom(f, pos).Some?
      invariant EntriesFrom(f, pos).Some? ==> EntriesFrom(f, offset).value == seen + EntriesFrom(f, pos).value
      decreases |f| - pos
    {
      if !Fits(f, pos, DYN_SIZE) {
        return DynFailed(11);
      }
      var e := DynAt(f, pos);
      if e.tag == DT_NULL {
        break;
      }
      assert (seen + [e])[..|seen|] == seen;
      EntriesStep(f, pos);
      if EntriesFrom(f, pos).Some? {
        assert seen + EntriesFrom(f, pos).value == (seen + [e]) + EntriesFrom(f, pos + DYN_SIZE).value;
      }
      d := Record(d, e);
      seen := seen + [e];
      pos := pos + DYN_SIZE;
    }
    assert EntriesFrom(f, pos) == Some([]);
    assert seen + [] == seen;
    if d.strtab == MAX_SIZE_T {
      return DynFailed(14);
    }
    return DynOk(d);
  }

  /** The `addrs` array: the load addresses, then the `MAX_SIZE_T` sentinel. */
  function Addrs(loads: seq<Load>): (a: seq<nat>)
    ensures |a| == |loads| + 1 && a[|loads|] == MAX_SIZE_T
    ensures forall i :: 0 <= i < |loads| ==> a[i] == loads[i].vaddr
  {
    seq(|loads|, i requires 0 <= i < |loads| => loads[i].vaddr) + [MAX_SIZE_T]
  }

  /** The first `i >= from` with `addrs[i] <= strtab < addrs[i + 1]`. */
  function FindLoad(addrs: seq<nat>, strtab: nat, from: nat): (r: Option<nat>)
    ensures r.Some? ==> from <= r.value && r.value + 1 < |addrs|
                        && addrs[r.value] <= strtab < addrs[r.value + 1]
                        && forall j :: from <= j < r.value ==> !(addrs[j] <= strtab < addrs[j + 1])
    ensures r.None? ==> forall j :: from <= j && j + 1 < |addrs| ==> !(addrs[j] <= strtab < addrs[j + 1])
    decreases |addrs| - from
  {
    if from + 1 >= |addrs| then None
    else if addrs[from] <= strtab < addrs[from + 1] then Some(from)
    else FindLoad(addrs, strtab, from + 1)
  }

  /** The string table lies in a load segment the translation loop can find. */
  predicate Mappable(loads: seq<Load>, strtab: nat)
  {
    FindLoad(Addrs(loads), strtab, 0).Some?
  }

  /** `strtab_offset`: the string table's file offset, in `uint64_t` arithmetic. */
  function StrtabOffsetOf(loads: seq<Load>, strtab: nat): nat
    requires Mappable(loads, strtab)
  {
    var i := FindLoad(Addrs(loads), strtab, 0).value;
    Wrap64(loads[i].offset - loads[i].vaddr + strtab)
  }

  /** libtree.c's translation loop. */
  method StrtabOffset(loads: seq<Load>, strtab: nat) returns (off: nat)
    requires Mappable(loads, strtab)
    ensures off == StrtabOffsetOf(loads, strtab)
  {
    var addrs := Addrs(loads);
    ghost var k := FindLoad(addrs, strtab, 0).value;
    var i := 0;
    while !(addrs[i] <= strtab && strtab < addrs[i + 1])
      invariant 0 <= i <= k
      decreases k - i
    {
      i := i + 1;
    }
    off := Wrap64(loads[i].offset - loads[i].vaddr + strtab);
  }

  /**
   * With ascending load addresses and `addrs[0] <= strtab < MAX_SIZE_T`, the loop stops
   * at the last segment starting at or below `strtab`.
   */
  lemma {:induction false} AscendingLoadsTranslate(addrs: seq<nat>, strtab: nat, from: nat)
    requires from < |addrs| && addrs[from] <= strtab < addrs[|addrs| - 1]
    requires forall i, j :: 0 <= i <= j < |addrs| ==> addrs[i] <= addrs[j]
    ensures FindLoad(addrs, strtab, from).Some?
    ensures forall j :: FindLoad(addrs, strtab, from).value < j < |addrs| ==> strtab < addrs[j]
    decreases |addrs| - from
  {
    if !(strtab < addrs[from + 1]) {
      AscendingLoadsTranslate(addrs, strtab, from + 1);
    }
  }

  /**
   * The fixed arrays of `recurse` hold this file: at most 31 `PT_LOAD` entries plus the
   * sentinel, at most 32 `DT_NEEDED` entries, and a string table the loop can place.
   */
  predicate WithinLimits(f: seq<Byte>)
  {
    match HeaderOf(f)
    case HeaderFailed(_) => true
    case HeaderOk(loads, dynamic) =>
      |loads| <= 31
      && (dynamic == MAX_SIZE_T
          || match DynamicOf(f, dynamic)
             case DynFailed(_) => true
             case DynOk(d) => |d.needed| <= 32 && Mappable(loads, d.strtab))
  }
}
