/** Mapping the PT_LOAD segments of an object, page by page, against what the
    program headers mean byte by byte. */
module Segments {
  import opened Layout
  import opened Basics

  datatype Prot = Prot(read: bool, write: bool, exec: bool)
  const PROT_NONE := Prot(false, false, false)

  /** An address space: bytes and their protection. */
  datatype Space = Space(bytes: map<int, int>, prot: map<int, Prot>)

  type File = seq<int>

  /** The rest of the last page of a mapped file reads as zero. */
  function FileByte(file: File, k: int): int {
    if 0 <= k < |file| then file[k] else 0
  }

  // ----- the system calls

  /** The two spaces agree outside [lo, hi). */
  ghost predicate SameBut(sp: Space, sp': Space, lo: int, hi: int) {
    && (forall x :: !(lo <= x < hi) ==> (x in sp'.bytes <==> x in sp.bytes) && (x in sp'.prot <==> x in sp.prot))
    && (forall x :: x in sp.bytes && !(lo <= x < hi) ==> sp'.bytes[x] == sp.bytes[x])
    && (forall x :: x in sp.prot && !(lo <= x < hi) ==> sp'.prot[x] == sp.prot[x])
  }

  ghost predicate HasFile(sp: Space, lo: int, hi: int, file: File, off: int) {
    forall x :: lo <= x < hi ==> x in sp.bytes && sp.bytes[x] == FileByte(file, off + x - lo)
  }

  ghost predicate HasZeros(sp: Space, lo: int, hi: int) {
    forall x :: lo <= x < hi ==> x in sp.bytes && sp.bytes[x] == 0
  }

  ghost predicate HasProt(sp: Space, lo: int, hi: int, p: Prot) {
    forall x :: lo <= x < hi ==> x in sp.prot && sp.prot[x] == p
  }

  /** mmap of a file with MAP_FIXED: whole pages are replaced. Pages that lie wholly
      beyond the end of the file are mapped, but have no bytes: touching them faults. */
  function MmapFile(sp: Space, page: int, lo: int, len: int, p: Prot, file: File, off: int): (sp': Space)
    requires page > 0
    ensures var hi := RoundUp(lo + len, page);
      SameBut(sp, sp', lo, hi) && HasProt(sp', lo, hi, p)
    ensures var hi, eof := RoundUp(lo + len, page), lo + RoundUp(|file|, page) - off;
      HasFile(sp', lo, Min(hi, eof), file, off) && forall x :: lo <= x < hi && eof <= x ==> x !in sp'.bytes
  {
    var r, eof := Range(lo, RoundUp(lo + len, page)), lo + RoundUp(|file|, page) - off;
    Space(Overlaid(sp.bytes, r, FileBytes(lo, eof, r, file, off)), sp.prot + (map x | x in r :: p))
  }

  function FileBytes(lo: int, eof: int, r: set<int>, file: File, off: int): (bytes: map<int, int>)
    ensures forall x :: x in bytes <==> x in r && x < eof
    ensures forall x :: x in bytes ==> bytes[x] == FileByte(file, off + x - lo)
  {
    map x | x in r && x < eof :: FileByte(file, off + x - lo)
  }

  /** The bytes in r give way to new ones. */
  function Overlaid(bytes: map<int, int>, r: set<int>, more: map<int, int>): (all: map<int, int>)
    requires more.Keys <= r
    ensures forall x :: x in all <==> if x in r then x in more else x in bytes
    ensures forall x :: x in all ==> all[x] == if x in r then more[x] else bytes[x]
  {
    bytes - r + more
  }

  /** mmap with MAP_ANON and MAP_FIXED: pages of zeros. */
  function MmapZero(sp: Space, page: int, lo: int, len: int, p: Prot): (sp': Space)
    requires page > 0
    ensures var hi := RoundUp(lo + len, page);
      SameBut(sp, sp', lo, hi) && HasZeros(sp', lo, hi) && HasProt(sp', lo, hi, p)
  {
    var r := Range(lo, RoundUp(lo + len, page));
    Space(sp.bytes + (map x | x in r :: 0), sp.prot + (map x | x in r :: p))
  }

  /** mprotect. */
  function Mprotect(sp: Space, page: int, lo: int, len: int, p: Prot): (sp': Space)
    requires page > 0
    ensures var hi := RoundUp(lo + len, page);
      SameBut(sp, sp', lo, hi) && HasProt(sp', lo, hi, p) && sp'.bytes == sp.bytes
  {
    var r := Range(lo, RoundUp(lo + len, page));
    Space(sp.bytes, sp.prot + (map x | x in r :: p))
  }

  /** memset with zero faults unless every byte is there and writable. */
  ghost predicate Writable(sp: Space, lo: int, n: int) {
    forall x :: lo <= x < lo + n ==> x in sp.bytes && x in sp.prot && sp.prot[x].write
  }

  function Memset(sp: Space, lo: int, n: int): (sp': Space)
    requires Writable(sp, lo, n)
    ensures SameBut(sp, sp', lo, lo + n) && HasZeros(sp', lo, lo + n) && sp'.prot == sp.prot
  {
    var r := Range(lo, lo + n);
    Space(sp.bytes + (map x | x in r :: 0), sp.prot)
  }

  // ----- segments

  /** A PT_LOAD program header. */
  datatype Segment = Segment(vaddr: int, offset: int, filesz: int, memsz: int, prot: Prot)

  datatype LoadCmd = LoadCmd(mapstart: int, mapend: int, dataend: int, allocend: int, mapoff: int, prot: Prot)

  ghost predicate ValidSegment(page: int, g: Segment)
    requires page > 0
  {
    SizesFit(g) && (g.vaddr - g.offset) % page == 0
  }

  predicate SizesFit(g: Segment) { 0 <= g.vaddr && 0 <= g.offset && 0 <= g.filesz <= g.memsz }

  /** The file holds the file part of every segment. */
  ghost predicate WithinFile(segs: seq<Segment>, file: File) {
    forall i :: 0 <= i < |segs| ==> segs[i].offset + segs[i].filesz <= |file|
  }

  /** The pages a segment occupies, relative to the load address. */
  function FootStart(page: int, g: Segment): int requires page > 0 { RoundDown(g.vaddr, page) }
  function FootEnd(page: int, g: Segment): int requires page > 0 { RoundUp(g.vaddr + g.memsz, page) }

  /** Segments in ascending order that share no page. */
  ghost predicate ValidSegments(page: int, segs: seq<Segment>) {
    && page > 0
    && (forall i :: 0 <= i < |segs| ==> ValidSegment(page, segs[i]))
    && (forall i, j :: 0 <= i < j < |segs| ==> FootEnd(page, segs[i]) <= FootStart(page, segs[j]))
  }

  /** What a segment means: the file bytes, then zeros, with its protection. */
  ghost predicate Imaged(sp: Space, base: int, g: Segment, file: File) {
    && HasFile(sp, base + g.vaddr, base + g.vaddr + g.filesz, file, g.offset)
    && HasZeros(sp, base + g.vaddr + g.filesz, base + g.vaddr + g.memsz)
    && HasProt(sp, base + g.vaddr, base + g.vaddr + g.memsz, g.prot)
  }

  /** One turn of parse_phdr. */
  function Command(page: int, g: Segment): (c: LoadCmd)
    requires page > 0
  {
    LoadCmd(RoundDown(g.vaddr, page), RoundDown(g.vaddr + g.filesz + page - 1, page),
            g.vaddr + g.filesz, g.vaddr + g.memsz, RoundDown(g.offset, page), g.prot)
  }

  function Commands(page: int, segs: seq<Segment>): (cs: seq<LoadCmd>)
    requires page > 0
    ensures |cs| == |segs| && forall i :: 0 <= i < |segs| ==> cs[i] == Command(page, segs[i])
  {
    seq(|segs|, i requires 0 <= i < |segs| => Command(page, segs[i]))
  }

  /** Neighbouring commands that do not meet. */
  predicate HasGap(cs: seq<LoadCmd>) { exists i :: 0 < i < |cs| && GapBefore(cs, i) }

  predicate GapBefore(cs: seq<LoadCmd>, i: int)
    requires 0 < i < |cs|
  {
    cs[i - 1].mapend != cs[i].mapstart
  }

  // ----- program headers

  datatype HeaderType = Load | Dynamic | Phdr | GnuStack | Tls | OtherType

  /** An Elf64_Phdr. */
  datatype Header =
    Header(kind: HeaderType, vaddr: int, offset: int, filesz: int, memsz: int, align: int, flags: int)

  /** The bits PF_R, PF_W and PF_X. */
  function ProtOf(flags: int): (p: Prot) { Prot(flags / 4 % 2 == 1, flags / 2 % 2 == 1, flags % 2 == 1) }

  function SegmentOf(h: Header): (g: Segment) { Segment(h.vaddr, h.offset, h.filesz, h.memsz, ProtOf(h.flags)) }

  /** The PT_LOAD entries, in order. */
  function Loads(hs: seq<Header>): (segs: seq<Segment>) {
    if hs == [] then [] else
      var last := hs[|hs| - 1];
      Loads(hs[..|hs| - 1]) + if last.kind.Load? then [SegmentOf(last)] else []
  }

  predicate IsLast(hs: seq<Header>, kind: HeaderType, i: int)
    requires 0 <= i < |hs|
  {
    hs[i].kind == kind && forall j :: i < j < |hs| ==> hs[j].kind != kind
  }

  /** The last entry of a type. */
  function LastOf(hs: seq<Header>, kind: HeaderType): (h: Option<Header>)
    ensures h.None? <==> forall i :: 0 <= i < |hs| ==> hs[i].kind != kind
    ensures h.Some? ==> exists i :: 0 <= i < |hs| && hs[i] == h.value && IsLast(hs, kind, i)
  {
    if hs == [] then None
    else if hs[|hs| - 1].kind == kind then
      assert IsLast(hs, kind, |hs| - 1);
      Some(hs[|hs| - 1])
    else
      var front := hs[..|hs| - 1];
      assert forall i :: 0 <= i < |front| && IsLast(front, kind, i) ==> IsLast(hs, kind, i);
      LastOf(front, kind)
  }

  // ----- what a header means

  /** The access that the flag bits PF_R (4), PF_W (2) and PF_X (1) allow. */
  predicate Allows(p: Prot, flags: int) {
    && (p.read <==> (flags / 4) % 2 == 1) && (p.write <==> (flags / 2) % 2 == 1) && (p.exec <==> flags % 2 == 1)
  }

  /** The program header h with its file part taken from position `off` of the file:
      byte k of memory is byte off + k of the file for k < p_filesz, and zero from
      there to p_memsz, with the access that its flags allow. */
  ghost predicate HeaderImaged(sp: Space, base: int, h: Header, off: int, file: File) {
    forall x :: base + h.vaddr <= x < base + h.vaddr + h.memsz ==> HeaderByte(sp, base, x, h, off, file)
  }

  ghost predicate HeaderByte(sp: Space, base: int, x: int, h: Header, off: int, file: File) {
    var k := x - base - h.vaddr;
    && x in sp.bytes && x in sp.prot && Allows(sp.prot[x], h.flags)
    && (if k < h.filesz then 0 <= off + k < |file| && sp.bytes[x] == file[off + k] else sp.bytes[x] == 0)
  }

  /** The header at i is the first PT_LOAD. */
  predicate IsFirstLoad(hs: seq<Header>, i: int)
    requires 0 <= i < |hs|
  {
    hs[i].kind.Load? && forall j :: 0 <= j < i ==> !hs[j].kind.Load?
  }

  /** Every PT_LOAD header is one of the segments; the first is the first. */
  lemma {:induction false} LoadAt(hs: seq<Header>, i: int) returns (j: int)
    requires 0 <= i < |hs| && hs[i].kind.Load?
    ensures 0 <= j < |Loads(hs)| && Loads(hs)[j] == SegmentOf(hs[i])
    ensures j == 0 <==> IsFirstLoad(hs, i)
  {
    var front := hs[..|hs| - 1];
    if i == |hs| - 1 {
      j := |Loads(front)|;
      LoadsEmpty(front);
    } else {
      j := LoadAt(front, i);
    }
  }

  lemma {:induction false} LoadsEmpty(hs: seq<Header>)
    ensures Loads(hs) == [] <==> forall i :: 0 <= i < |hs| ==> !hs[i].kind.Load?
  {
    if hs != [] {
      var front := hs[..|hs| - 1];
      LoadsEmpty(front);
      if Loads(front) != [] {
        var i :| 0 <= i < |front| && front[i].kind.Load?;
        assert hs[i].kind.Load?;
      }
    }
  }

  /** The image of a segment is the image of its header. */
  lemma ImagedHeader(sp: Space, base: int, h: Header, g: Segment, file: File)
    requires g == SegmentOf(h).(offset := g.offset) && Imaged(sp, base, g, file)
    requires 0 <= g.offset && g.offset + g.filesz <= |file| && 0 <= h.filesz <= h.memsz
    ensures HeaderImaged(sp, base, h, g.offset, file)
  {
    forall x | base + h.vaddr <= x < base + h.vaddr + h.memsz ensures HeaderByte(sp, base, x, h, g.offset, file) {
      assert x in sp.prot && sp.prot[x] == g.prot;
      if x - base - h.vaddr < h.filesz {
        assert sp.bytes[x] == FileByte(file, g.offset + x - (base + g.vaddr));
      } else {
        assert sp.bytes[x] == 0;
      }
    }
  }

  /** All PT_LOAD headers, from the images of their segments. */
  lemma AllHeadersImaged(page: int, sp: Space, base: int, hs: seq<Header>, postmap: bool, file: File)
    requires page > 0 && ValidSegments(page, Loads(hs)) && WithinFile(Loads(hs), file)
    requires forall i :: 0 <= i < |Loads(hs)| ==> Imaged(sp, base, Mapped(page, Loads(hs), postmap, i), file)
    ensures forall i :: 0 <= i < |hs| && hs[i].kind.Load? ==>
      HeaderImaged(sp, base, hs[i], HeaderOffset(page, hs, postmap, i), file)
  {
    hide Imaged, Loads, HeaderImaged, Mapped, Command, IsFirstLoad;
    forall i | 0 <= i < |hs| && hs[i].kind.Load?
      ensures HeaderImaged(sp, base, hs[i], HeaderOffset(page, hs, postmap, i), file)
    {
      var j := LoadAt(hs, i);
      var g := Mapped(page, Loads(hs), postmap, j);
      assert ValidSegment(page, Loads(hs)[j]);
      MappedOffset(page, hs, postmap, i, j);
      ImagedHeader(sp, base, hs[i], g, file);
    }
  }

  /** Where the bytes of a header come from: for the first PT_LOAD of an ET_DYN
      object from the start of the file, whatever its offset says. */
  function HeaderOffset(page: int, hs: seq<Header>, postmap: bool, i: int): (off: int)
    requires page > 0 && 0 <= i < |hs|
  {
    if postmap && IsFirstLoad(hs, i) then hs[i].vaddr % page else hs[i].offset
  }

  lemma MappedOffset(page: int, hs: seq<Header>, postmap: bool, i: int, j: int)
    requires page > 0 && 0 <= i < |hs| && 0 <= j < |Loads(hs)| && Loads(hs)[j] == SegmentOf(hs[i])
    requires (j == 0 <==> IsFirstLoad(hs, i)) && ValidSegment(page, Loads(hs)[j])
    ensures var g, off := Mapped(page, Loads(hs), postmap, j), HeaderOffset(page, hs, postmap, i);
      g == SegmentOf(hs[i]).(offset := off) && 0 <= off <= hs[i].offset
  {
    hide Loads, IsFirstLoad, RoundUp;
    var h := hs[i];
    RoundingBounds(h.vaddr, page);
    MapoffPositive(page, Loads(hs)[j]);
    ZeroIsAligned(page);
    CommandBounds(page, 0, Loads(hs)[j]);
  }

  /** The two assertions of parse_phdr. p_align is zero or a power of two, so that
      masking with p_align - 1 leaves the remainder, or everything for zero. */
  predicate Aligned(page: int, h: Header)
    requires page > 0
  {
    h.align % page == 0 && if h.align == 0 then h.vaddr == h.offset else (h.vaddr - h.offset) % h.align == 0
  }

  ghost predicate AllAligned(page: int, hs: seq<Header>)
    requires page > 0
  {
    forall h :: h in hs && h.kind.Load? ==> Aligned(page, h)
  }

  /** What parse_phdr finds out, unless an assertion fails. */
  datatype Parsed =
    | Rejected
    | Parsed(cmds: seq<LoadCmd>, hasHoles: bool, dynamic: Option<Header>, phdr: Option<Header>)

  /** parse_phdr: the load commands and the holes between them, and where the
      dynamic section and the program headers are. */
  method ParsePhdr(page: int, hs: seq<Header>) returns (r: Parsed)
    requires page > 0
    ensures r.Rejected? <==> !AllAligned(page, hs)
    ensures r.Parsed? ==>
      && r.cmds == Commands(page, Loads(hs)) && (r.hasHoles <==> HasGap(r.cmds))
      && (forall i :: 0 <= i < |hs| && hs[i].kind.Load? ==> HasCommand(page, r.cmds, hs[i]))
      && r.dynamic == LastOf(hs, Dynamic) && r.phdr == LastOf(hs, Phdr)
  {
    hide Command;
    var cmds, hasHoles, dynamic, phdr := [], false, None, None;
    var i := 0;
    while i < |hs|
      invariant 0 <= i <= |hs| && AllAligned(page, hs[..i])
      invariant cmds == Commands(page, Loads(hs[..i])) && (hasHoles <==> HasGap(cmds))
      invariant dynamic == LastOf(hs[..i], Dynamic) && phdr == LastOf(hs[..i], Phdr)
    {
      var h := hs[i];
      assert hs[..i + 1][..i] == hs[..i];
      match h.kind {
        case Load =>
          if !Aligned(page, h) {
            return Rejected;
          }
          var c := NextCommand(page, h);
          GapMore(cmds, c);
          if |cmds| > 0 && cmds[|cmds| - 1].mapend != c.mapstart {
            hasHoles := true;
          }
          CommandsMore(page, Loads(hs[..i]), SegmentOf(h));
          cmds := cmds + [c];
        case Dynamic =>
          dynamic := Some(h);
        case Phdr =>
          phdr := Some(h);
        case _ =>
      }
      i := i + 1;
    }
    assert hs[..i] == hs;
    HeadersHaveCommands(page, hs);
    return Parsed(cmds, hasHoles, dynamic, phdr);
  }

  /** Some command covers header h: file data, memory, position in the file, access. */
  predicate HasCommand(page: int, cmds: seq<LoadCmd>, h: Header)
    requires page > 0
  {
    exists c :: c in cmds && CommandFor(page, c, h)
  }

  predicate CommandFor(page: int, c: LoadCmd, h: Header)
    requires page > 0
  {
    && c.mapstart <= h.vaddr < c.mapstart + page && c.mapstart % page == 0
    && c.dataend == h.vaddr + h.filesz && c.allocend == h.vaddr + h.memsz
    && c.dataend <= c.mapend < c.dataend + page && c.mapend % page == 0
    && c.mapoff <= h.offset < c.mapoff + page && c.mapoff % page == 0 && Allows(c.prot, h.flags)
  }

  lemma HeadersHaveCommands(page: int, hs: seq<Header>)
    requires page > 0
    ensures forall i :: 0 <= i < |hs| && hs[i].kind.Load? ==> HasCommand(page, Commands(page, Loads(hs)), hs[i])
  {
    hide Loads, Command, CommandFor;
    forall i | 0 <= i < |hs| && hs[i].kind.Load? ensures HasCommand(page, Commands(page, Loads(hs)), hs[i]) {
      var j := LoadAt(hs, i);
      CommandIsFor(page, hs[i]);
      assert Commands(page, Loads(hs))[j] == Command(page, SegmentOf(hs[i]));
      assert Commands(page, Loads(hs))[j] in Commands(page, Loads(hs));
    }
  }

  lemma CommandIsFor(page: int, h: Header)
    requires page > 0
    ensures CommandFor(page, Command(page, SegmentOf(h)), h)
  {
    hide RoundUp;
    RoundingBounds(h.vaddr, page);
    RoundingBounds(h.offset, page);
    RoundingBounds(h.vaddr + h.filesz, page);
    RoundUpMonotone(h.vaddr + h.filesz, page);
  }

  /** One load command. */
  method NextCommand(page: int, h: Header) returns (c: LoadCmd)
    requires page > 0
    ensures c == Command(page, SegmentOf(h))
  {
    var prot := PROT_NONE;
    if h.flags / 4 % 2 == 1 { prot := prot.(read := true); }
    if h.flags / 2 % 2 == 1 { prot := prot.(write := true); }
    if h.flags % 2 == 1 { prot := prot.(exec := true); }
    c := LoadCmd(RoundDown(h.vaddr, page), RoundDown(h.vaddr + h.filesz + page - 1, page),
                 h.vaddr + h.filesz, h.vaddr + h.memsz, RoundDown(h.offset, page), prot);
  }

  lemma GapMore(cs: seq<LoadCmd>, c: LoadCmd)
    ensures HasGap(cs + [c]) <==> HasGap(cs) || (cs != [] && cs[|cs| - 1].mapend != c.mapstart)
  {
    var all := cs + [c];
    forall i | 0 < i < |cs| ensures GapBefore(all, i) <==> GapBefore(cs, i) {
      assert all[i - 1] == cs[i - 1] && all[i] == cs[i];
    }
    if cs != [] { assert GapBefore(all, |cs|) <==> cs[|cs| - 1].mapend != c.mapstart; }
    hide GapBefore;
  }

  lemma CommandsMore(page: int, segs: seq<Segment>, g: Segment)
    requires page > 0
    ensures Commands(page, segs + [g]) == Commands(page, segs) + [Command(page, g)]
  {
  }

  /** Segments of reasonable sizes, in ascending order, that share no page. */
  ghost predicate Placed(page: int, segs: seq<Segment>) {
    && page > 0
    && (forall i :: 0 <= i < |segs| ==> SizesFit(segs[i]))
    && (forall i, j :: 0 <= i < j < |segs| ==> FootEnd(page, segs[i]) <= FootStart(page, segs[j]))
  }

  /** What the assertions accept is congruent modulo the page size. */
  lemma AlignedIsCongruent(page: int, h: Header)
    requires page > 0 && Aligned(page, h)
    ensures (h.vaddr - h.offset) % page == 0
  {
    if h.align == 0 {
      MultipleOf(0, page);
    } else {
      var d, q, k := h.vaddr - h.offset, (h.vaddr - h.offset) / h.align, h.align / page;
      assert d == q * h.align && h.align == k * page;
      assert d == (q * k) * page;
      MultipleOf(q * k, page);
    }
  }

  /** Headers aligned to pages, at offsets congruent modulo the page, are accepted. */
  lemma PageAlignedIsAccepted(page: int, h: Header)
    requires page > 0 && h.align == page && (h.vaddr - h.offset) % page == 0
    ensures Aligned(page, h)
  {
    MultipleOf(1, page);
  }

  lemma {:induction false} LoadsCongruent(page: int, hs: seq<Header>)
    requires page > 0 && AllAligned(page, hs)
    ensures forall i :: 0 <= i < |Loads(hs)| ==> (Loads(hs)[i].vaddr - Loads(hs)[i].offset) % page == 0
  {
    if hs != [] {
      var front, last := hs[..|hs| - 1], hs[|hs| - 1];
      assert forall h :: h in front ==> h in hs;
      LoadsCongruent(page, front);
      if last.kind.Load? {
        assert last in hs;
        AlignedIsCongruent(page, last);
      }
    }
  }

  lemma LoadsValid(page: int, hs: seq<Header>)
    requires page > 0 && AllAligned(page, hs) && Placed(page, Loads(hs))
    ensures ValidSegments(page, Loads(hs))
  {
    hide FootStart, FootEnd, Loads, AllAligned;
    LoadsCongruent(page, hs);
  }

  /** Where the commands of a valid segment lie. */
  lemma CommandBounds(page: int, base: int, g: Segment)
    requires page > 0 && ValidSegment(page, g) && base % page == 0
    ensures var c := Command(page, g);
      && c.mapstart == FootStart(page, g) <= g.vaddr
      && c.mapstart % page == 0 && c.mapend % page == 0
      && c.dataend <= c.mapend < c.dataend + page && c.mapend <= FootEnd(page, g)
      && c.allocend <= FootEnd(page, g)
      && c.mapoff - c.mapstart == g.offset - g.vaddr
      && RoundUp(base + c.dataend, page) == base + c.mapend
      && RoundUp(base + c.allocend, page) == base + FootEnd(page, g)
      && RoundUp(base + c.mapend, page) == base + c.mapend
  {
    RoundingBounds(g.vaddr, page);
    RoundingBounds(g.vaddr + g.filesz, page);
    RoundingBounds(g.vaddr + g.memsz, page);
    assert g.vaddr + g.filesz + page - 1 == g.vaddr + g.filesz + (page - 1);
    hide RoundUp, RoundDown;
    RoundUpLeast(g.vaddr + g.filesz, RoundUp(g.vaddr + g.memsz, page), page);
    RoundUpMonotone(g.vaddr + g.filesz, page);
    ShiftedRoundUp(base, g.vaddr + g.filesz, page);
    ShiftedRoundUp(base, g.vaddr + g.memsz, page);
    ShiftedRoundUp(base, RoundUp(g.vaddr + g.filesz, page), page);
    CongruentRoundDown(g.vaddr, g.offset, page);
  }

  lemma RoundUpMonotone(x: int, page: int)
    requires page > 0
    ensures RoundDown(x + page - 1, page) == RoundUp(x, page)
    ensures RoundUp(RoundUp(x, page), page) == RoundUp(x, page)
  {
    assert x + page - 1 == x + (page - 1);
    RoundingBounds(x, page);
    RoundingBounds(RoundUp(x, page), page);
    RoundUpLeast(RoundUp(x, page), RoundUp(x, page), page);
  }

  lemma ShiftedRoundUp(base: int, x: int, page: int)
    requires page > 0 && base % page == 0
    ensures RoundUp(base + x, page) == base + RoundUp(x, page)
  {
    RoundingBounds(x, page);
    RoundingBounds(base + x, page);
    MultiplesAdd(base, RoundUp(x, page), page);
    var a, b := RoundUp(base + x, page), base + RoundUp(x, page);
    hide RoundUp;
    RoundUpLeast(base + x, b, page);
    if a < b { MultiplesApart(a, b, page); }
  }

  lemma CongruentRoundDown(x: int, y: int, page: int)
    requires page > 0 && (x - y) % page == 0
    ensures RoundDown(x, page) - RoundDown(y, page) == x - y
  {
    RoundingBounds(x, page);
    RoundingBounds(y, page);
    MultiplesAdd(RoundDown(y, page), x - y, page);
    var a, b := RoundDown(x, page), RoundDown(y, page) + (x - y);
    hide RoundDown;
    if a < b { MultiplesApart(a, b, page); }
    if b < a { MultiplesApart(b, a, page); }
  }

  // ----- mapping

  /** The pages that hold the file part of a segment. */
  ghost predicate FileMapped(sp: Space, base: int, c: LoadCmd, file: File, off: int) {
    && HasFile(sp, base + c.mapstart, base + c.mapend, file, off)
    && HasProt(sp, base + c.mapstart, base + c.mapend, c.prot)
  }

  lemma FileMappedParts(sp: Space, base: int, c: LoadCmd, file: File, off: int, page: int)
    requires FileMapped(sp, base, c, file, off)
    ensures HasFile(sp, base + c.mapstart, base + c.mapend, file, off)
    ensures HasProt(sp, base + c.mapstart, base + c.mapend, c.prot)
    ensures ZeroPage(page, c) <= c.mapend
  {
  }

  /** The partial page between the file data and the zero pages. */
  function ZeroPage(page: int, c: LoadCmd): int { if c.allocend < c.mapend then c.allocend else c.mapend }

  lemma ZeroPageBounds(page: int, base: int, g: Segment)
    requires page > 0 && ValidSegment(page, g) && base % page == 0
    ensures var c := Command(page, g);
      var zero := base + c.dataend;
      var last := RoundDown(zero, page);
      && RoundDown(zero + page - 1, page) == base + c.mapend
      && (c.mapend > c.dataend ==>
            && base + c.mapstart <= last <= zero < last + page == base + c.mapend
            && RoundUp(last + page, page) == last + page)
  {
    CommandBounds(page, base, g);
    var c := Command(page, g);
    var zero := base + c.dataend;
    RoundUpMonotone(zero, page);
    RoundingBounds(zero, page);
    var last := RoundDown(zero, page);
    MultiplesAdd(base, c.mapstart, page);
    MultiplesAdd(base, c.mapend, page);
    MultipleOf(1, page);
    MultiplesAdd(last, page, page);
    RoundUpExact(last + page, page);
    hide RoundUp, RoundDown, Command;
    if c.mapend > c.dataend {
      MultiplesApart(last, base + c.mapend, page);
      if last + page < base + c.mapend { MultiplesApart(last + page, base + c.mapend, page); }
      if last < base + c.mapstart { MultiplesApart(last, base + c.mapstart, page); }
    }
  }

  lemma RoundUpExact(x: int, page: int)
    requires page > 0 && x % page == 0
    ensures RoundUp(x, page) == x
  {
    RoundingBounds(x, page);
    RoundUpLeast(x, x, page);
  }

  lemma MadeWritable(sp0: Space, sp1: Space, start: int, lo: int, hi: int, zero: int, zeropage: int, p: Prot,
                     file: File, off: int)
    requires start <= lo <= zero < zeropage <= hi && HasProt(sp0, start, hi, p) && HasFile(sp0, start, hi, file, off)
    requires if p.write then sp1 == sp0
             else SameBut(sp0, sp1, lo, hi) && sp1.bytes == sp0.bytes && HasProt(sp1, lo, hi, p.(write := true))
    ensures Writable(sp1, zero, zeropage - zero)
  {
  }

  /** Lifting and restoring the protection of one page shows nowhere. */
  lemma Reprotected(sp0: Space, sp1: Space, sp2: Space, sp3: Space,
                    start: int, lo: int, hi: int, zero: int, zeropage: int, p: Prot)
    requires start <= lo <= zero < zeropage <= hi && HasProt(sp0, start, hi, p)
    requires if p.write then sp1 == sp0 else SameBut(sp0, sp1, lo, hi) && sp1.bytes == sp0.bytes
    requires SameBut(sp1, sp2, zero, zeropage) && sp2.prot == sp1.prot && HasZeros(sp2, zero, zeropage)
    requires if p.write then sp3 == sp2
             else SameBut(sp2, sp3, lo, hi) && HasProt(sp3, lo, hi, p) && sp3.bytes == sp2.bytes
    ensures SameBut(sp0, sp3, zero, zeropage) && HasZeros(sp3, zero, zeropage) && HasProt(sp3, start, hi, p)
  {
  }

  class Mapper {
    const page: int
    const file: File
    var space: Space

    constructor (page: int, file: File, space: Space)
      ensures this.page == page && this.file == file && this.space == space
    {
      this.page, this.file, this.space := page, file, space;
    }

    /** The memset, with the last file page made writable for it if need be. */
    method ClearTail(base: int, c: LoadCmd, zero: int, zeropage: int, ghost g: Segment, ghost off: int)
      requires page > 0 && base % page == 0 && ValidSegment(page, g) && c == Command(page, g)
      requires zero == base + c.dataend < zeropage == base + ZeroPage(page, c) && FileMapped(space, base, c, file, off)
      modifies this
      ensures SameBut(old(space), space, zero, zeropage) && HasZeros(space, zero, zeropage)
      ensures HasProt(space, base + c.mapstart, base + c.mapend, c.prot)
    {
      hide *;
      ZeroPageBounds(page, base, g);
      FileMappedParts(space, base, c, file, off, page);
      ghost var sp0, start, lo, hi := space, base + c.mapstart, RoundDown(zero, page), base + c.mapend;
      if !c.prot.write {
        space := Mprotect(space, page, RoundDown(zero, page), page, c.prot.(write := true));
      }
      ghost var sp1 := space;
      MadeWritable(sp0, sp1, start, lo, hi, zero, zeropage, c.prot, file, off);
      space := Memset(space, zero, zeropage - zero);
      ghost var sp2 := space;
      if !c.prot.write {
        space := Mprotect(space, page, RoundDown(zero, page), page, c.prot);
      }
      Reprotected(sp0, sp1, sp2, space, start, lo, hi, zero, zeropage, c.prot);
    }

    /** The part of map_object_loadcmd behind the label postmap: zero what lies
        beyond the file data, up to the end of the segment. */
    method ZeroFill(base: int, c: LoadCmd, ghost g: Segment, ghost off: int)
      requires page > 0 && base % page == 0 && ValidSegment(page, g) && c == Command(page, g)
      requires FileMapped(space, base, c, file, off)
      modifies this
      ensures SameBut(old(space), space, base + c.mapstart, base + FootEnd(page, g))
      ensures Imaged(space, base, g.(offset := off + g.vaddr - c.mapstart), file)
    {
      hide *;
      CommandBounds(page, base, g);
      ZeroPageBounds(page, base, g);
      FileMappedParts(space, base, c, file, off, page);
      CommandEnds(page, g);
      ghost var sp0 := space;
      if c.allocend > c.dataend {
        var zero, zeroend := base + c.dataend, base + c.allocend;
        var zeropage := RoundDown(zero + page - 1, page);
        if zeroend < zeropage {
          zeropage := zeroend;
        }
        if zeropage > zero {
          ClearTail(base, c, zero, zeropage, g, off);
        } else {
          NothingChanged(space, zero, zeropage);
        }
        ghost var sp1 := space;
        if zeroend > zeropage {
          space := MmapZero(space, page, zeropage, zeroend - zeropage, c.prot);
        }
        ZeroFilled(sp0, sp1, space, base, c, g, file, off, base + FootEnd(page, g), zeropage);
      } else {
        NoZeros(sp0, base, c, g, file, off, base + FootEnd(page, g));
      }
    }

    /** mmap of the file part of one segment. */
    method MapFilePart(base: int, c: LoadCmd, ghost g: Segment)
      requires page > 0 && base % page == 0 && ValidSegment(page, g) && c == Command(page, g)
      requires g.offset + g.filesz <= |file|
      modifies this
      ensures FileMapped(space, base, c, file, c.mapoff)
      ensures SameBut(old(space), space, base + c.mapstart, base + FootEnd(page, g))
    {
      hide RoundUp, RoundDown, Command, FootEnd, FootStart, FileByte, ValidSegment, MmapFile;
      CommandBounds(page, base, g);
      FilePages(page, g, |file|);
      if c.mapend > c.mapstart {
        assert (base + c.mapstart) + (c.mapend - c.mapstart) == base + c.mapend;
        space := MmapFile(space, page, base + c.mapstart, c.mapend - c.mapstart, c.prot, file, c.mapoff);
      }
    }

    /** map_object_loadcmd. With `postmap`, the file part of the first segment is
        already mapped, from the start of the file. */
    method MapLoadCmds(base: int, cmds: seq<LoadCmd>, postmap: bool, ghost segs: seq<Segment>)
      requires ValidSegments(page, segs) && WithinFile(segs, file) && base % page == 0 && segs != []
      requires cmds == Commands(page, segs)
      requires postmap ==> FileMapped(space, base, cmds[0], file, 0)
      modifies this
      ensures forall i :: 0 <= i < |segs| ==> Imaged(space, base, Mapped(page, segs, postmap, i), file)
      ensures FeetOnly(page, base, segs, old(space), space)
    {
      hide ValidSegment, Command, FileMapped, Imaged, SameBut, FootEnd, FootStart, FeetOnly, Commands;
      NothingStirred(page, base, segs, space);
      var i := 0;
      while i < |cmds|
        invariant 0 <= i <= |cmds|
        invariant i == 0 ==> space == old(space)
        invariant FeetOnly(page, base, segs, old(space), space)
        invariant forall k :: 0 <= k < i ==> Imaged(space, base, Mapped(page, segs, postmap, k), file)
      {
        ghost var g, sp0 := segs[i], space;
        var c := cmds[i];
        ghost var off := if i == 0 && postmap then 0 else c.mapoff;
        CommandBounds(page, base, g);
        if !(i == 0 && postmap) {
          MapFilePart(base, c, g);
        } else {
          Unchanged(space, base + c.mapstart, base + FootEnd(page, g));
        }
        ghost var sp1 := space;
        ZeroFill(base, c, g, off);
        SameTwice(sp0, sp1, space, base + c.mapstart, base + FootEnd(page, g));
        FeetStill(page, base, segs, i, old(space), sp0, space);
        MappedIs(page, segs, postmap, i);
        forall k | 0 <= k < i ensures Imaged(space, base, Mapped(page, segs, postmap, k), file) {
          EarlierKept(page, sp0, space, base, segs, postmap, k, i, file);
        }
        i := i + 1;
      }
    }

    /** map_object_fd for ET_EXEC: segments go where they say. */
    method MapExec(hs: seq<Header>) returns (r: Parsed)
      requires page > 0 && Placed(page, Loads(hs)) && WithinFile(Loads(hs), file) && Loads(hs) != []
      modifies this
      ensures r.Rejected? <==> !AllAligned(page, hs)
      ensures r.Rejected? ==> space == old(space)
      ensures r.Parsed? ==>
        var segs := Loads(hs);
        && (forall i :: 0 <= i < |segs| ==> Imaged(space, 0, segs[i], file))
        && (forall i :: 0 <= i < |hs| && hs[i].kind.Load? ==> HeaderImaged(space, 0, hs[i], hs[i].offset, file))
        && FeetOnly(page, 0, segs, old(space), space)
    {
      hide ValidSegment, Command, FileMapped, Imaged, FootEnd, FootStart, Loads, AllAligned, Placed, WithinFile,
           FeetOnly, HeaderImaged;
      r := ParsePhdr(page, hs);
      if r.Rejected? {
        return;
      }
      ghost var segs := Loads(hs);
      LoadsValid(page, hs);
      ZeroIsAligned(page);
      MapLoadCmds(0, r.cmds, false, segs);
      assert forall i :: 0 <= i < |segs| ==> Mapped(page, segs, false, i) == segs[i];
      AllHeadersImaged(page, space, 0, hs, false, file);
    }

    /** map_object_fd for ET_DYN: one mapping of the file reserves the whole range
        at the address `start` the system chose, holes lose all access, and the
        other segments are mapped over it. */
    method MapDyn(hs: seq<Header>, start: int) returns (r: Parsed, base: int)
      requires page > 0 && Placed(page, Loads(hs)) && WithinFile(Loads(hs), file) && Loads(hs) != []
        && start % page == 0
      modifies this
      ensures r.Rejected? <==> !AllAligned(page, hs)
      ensures r.Rejected? ==> space == old(space)
      ensures r.Parsed? ==>
        var segs := Loads(hs);
        && base == start - FootStart(page, segs[0])
        && (forall i :: 0 <= i < |segs| ==> Imaged(space, base, Mapped(page, segs, true, i), file))
        && (forall i :: 0 <= i < |hs| && hs[i].kind.Load? ==>
              HeaderImaged(space, base, hs[i], HeaderOffset(page, hs, true, i), file))
        && Beside(page, base, segs, old(space), space)
        && HolesClosed(page, base, segs, space)
    {
      hide ValidSegment, ValidSegments, Command, Imaged, FootEnd, FootStart, Loads, AllAligned, Placed, WithinFile,
           FeetOnly, Commands, HasGap, SameBut, HolesClosed, Beside, FileMapped, MmapFile, Mprotect, RoundUp,
           RoundDown, Mapped, FileByte, HeaderImaged, HeaderOffset;
      base := 0;
      r := ParsePhdr(page, hs);
      if r.Rejected? {
        return;
      }
      ghost var segs := Loads(hs);
      LoadsValid(page, hs);
      base := Reserve(r.cmds, start, segs);
      ghost var sp0 := space;
      var c, last := r.cmds[0], r.cmds[|r.cmds| - 1];
      if r.hasHoles {
        space := Mprotect(space, page, base + c.mapend, last.mapstart - c.mapend, PROT_NONE);
      }
      ghost var sp1 := space;
      HolesProtected(page, base, segs, sp0, sp1, r.hasHoles, file);
      MapLoadCmds(base, r.cmds, true, segs);
      HolesStay(page, base, segs, sp1, space);
      BesideStays(page, base, segs, old(space), sp0, sp1, space);
      AllHeadersImaged(page, space, base, hs, true, file);
    }

    /** The mapping that reserves the range of an ET_DYN object. */
    method Reserve(cmds: seq<LoadCmd>, start: int, ghost segs: seq<Segment>) returns (base: int)
      requires ValidSegments(page, segs) && WithinFile(segs, file) && segs != [] && start % page == 0
      requires cmds == Commands(page, segs)
      modifies this
      ensures base == start - FootStart(page, segs[0]) && base % page == 0
      ensures FileMapped(space, base, cmds[0], file, 0) && Beside(page, base, segs, old(space), space)
    {
      hide ValidSegment, Command, FootEnd, FootStart, FileByte, MmapFile, RoundUp, RoundDown, SameBut, Commands;
      var c, last := cmds[0], cmds[|cmds| - 1];
      ReservedRange(page, segs, start);
      FilePages(page, segs[0], |file|);
      var maplength := last.allocend - c.mapstart;
      space := MmapFile(space, page, start, maplength, c.prot, file, 0);
      base := start - c.mapstart;
    }
  }

  // ----- what mapping leaves alone

  ghost predicate Agree(sp: Space, sp': Space, x: int) {
    && (x in sp'.bytes <==> x in sp.bytes) && (x in sp.bytes ==> sp'.bytes[x] == sp.bytes[x])
    && (x in sp'.prot <==> x in sp.prot) && (x in sp.prot ==> sp'.prot[x] == sp.prot[x])
  }

  ghost predicate InFoot(page: int, base: int, segs: seq<Segment>, x: int)
    requires page > 0
  {
    exists i :: 0 <= i < |segs| && base + FootStart(page, segs[i]) <= x < base + FootEnd(page, segs[i])
  }

  /** Only pages of segments have changed. */
  ghost predicate FeetOnly(page: int, base: int, segs: seq<Segment>, sp: Space, sp': Space)
    requires page > 0
  {
    forall x :: !InFoot(page, base, segs, x) ==> Agree(sp, sp', x)
  }

  /** Nothing has changed outside the pages from the first segment to the last. */
  ghost predicate Beside(page: int, base: int, segs: seq<Segment>, sp: Space, sp': Space)
    requires page > 0 && segs != []
  {
    SameBut(sp, sp', base + FootStart(page, segs[0]), base + FootEnd(page, segs[|segs| - 1]))
  }

  /** The pages between the segments allow no access. */
  ghost predicate HolesClosed(page: int, base: int, segs: seq<Segment>, sp: Space)
    requires page > 0 && segs != []
  {
    forall x ::
      base + FootStart(page, segs[0]) <= x < base + FootEnd(page, segs[|segs| - 1]) && !InFoot(page, base, segs, x) ==>
      x in sp.prot && sp.prot[x] == PROT_NONE
  }

  lemma NothingStirred(page: int, base: int, segs: seq<Segment>, sp: Space)
    requires page > 0
    ensures FeetOnly(page, base, segs, sp, sp)
  {
  }

  lemma FeetStill(page: int, base: int, segs: seq<Segment>, i: int, sp: Space, sp1: Space, sp2: Space)
    requires page > 0 && 0 <= i < |segs| && FeetOnly(page, base, segs, sp, sp1)
    requires SameBut(sp1, sp2, base + FootStart(page, segs[i]), base + FootEnd(page, segs[i]))
    ensures FeetOnly(page, base, segs, sp, sp2)
  {
    hide FootStart, FootEnd;
    forall x | !InFoot(page, base, segs, x) ensures Agree(sp, sp2, x) {
      assert Agree(sp, sp1, x);
    }
  }

  /** Without gaps every page of the range belongs to a segment. */
  lemma {:induction false} NoGapNoHole(page: int, base: int, segs: seq<Segment>, n: int, x: int)
    requires ValidSegments(page, segs) && 0 <= n < |segs| && !HasGap(Commands(page, segs))
    requires base + FootStart(page, segs[0]) <= x < base + FootEnd(page, segs[n])
    ensures InFoot(page, base, segs, x)
    decreases n
  {
    hide FootStart, FootEnd, Command, ValidSegment;
    if x < base + FootStart(page, segs[n]) {
      var cs := Commands(page, segs);
      ZeroIsAligned(page);
      CommandBounds(page, 0, segs[n]);
      CommandBounds(page, 0, segs[n - 1]);
      assert !GapBefore(cs, n);
      NoGapNoHole(page, base, segs, n - 1, x);
    }
  }

  /** A byte of the range that is in no segment lies above the first and below the last. */
  lemma HoleBetween(page: int, base: int, segs: seq<Segment>, x: int)
    requires ValidSegments(page, segs) && segs != [] && !InFoot(page, base, segs, x)
    requires base + FootStart(page, segs[0]) <= x < base + FootEnd(page, segs[|segs| - 1])
    ensures base + Command(page, segs[0]).mapend <= x < base + Command(page, segs[|segs| - 1]).mapstart
  {
    hide FootStart, FootEnd, Command, ValidSegment;
    ZeroIsAligned(page);
    CommandBounds(page, 0, segs[0]);
    CommandBounds(page, 0, segs[|segs| - 1]);
  }

  /** The mprotect call, if it is made, closes the holes and keeps the first segment. */
  lemma HolesProtected(page: int, base: int, segs: seq<Segment>, sp0: Space, sp1: Space, hasHoles: bool, file: File)
    requires page > 0 && ValidSegments(page, segs) && segs != [] && base % page == 0
    requires hasHoles <==> HasGap(Commands(page, segs))
    requires var c, last := Command(page, segs[0]), Command(page, segs[|segs| - 1]);
      && FileMapped(sp0, base, c, file, 0)
      && sp1 == if hasHoles then Mprotect(sp0, page, base + c.mapend, last.mapstart - c.mapend, PROT_NONE) else sp0
    ensures HolesClosed(page, base, segs, sp1)
    ensures FileMapped(sp1, base, Command(page, segs[0]), file, 0)
    ensures Beside(page, base, segs, sp0, sp1)
  {
    hide FootStart, FootEnd, Command, ValidSegment, ValidSegments, RoundUp, Mprotect, Commands, HasGap, FileByte,
         InFoot, SameBut, HasFile;
    var c, last, n := Command(page, segs[0]), Command(page, segs[|segs| - 1]), |segs|;
    if hasHoles {
      SomeGap(page, segs);
      HoleRange(page, base, segs);
      HolesAbove(sp0, sp1, base, c, file, base + last.mapstart);
      SameNarrow(sp0, sp1, base + c.mapend, base + last.mapstart,
                 base + FootStart(page, segs[0]), base + FootEnd(page, segs[n - 1]));
    } else {
      Unchanged(sp0, base + FootStart(page, segs[0]), base + FootEnd(page, segs[n - 1]));
    }
    forall x | base + FootStart(page, segs[0]) <= x < base + FootEnd(page, segs[n - 1]) && !InFoot(page, base, segs, x)
      ensures x in sp1.prot && sp1.prot[x] == PROT_NONE
    {
      HoleBetween(page, base, segs, x);
      if !hasHoles {
        NoGapNoHole(page, base, segs, n - 1, x);
      }
    }
  }

  lemma SomeGap(page: int, segs: seq<Segment>)
    requires page > 0 && HasGap(Commands(page, segs))
    ensures |segs| > 1
  {
    hide Command;
  }

  lemma HoleRange(page: int, base: int, segs: seq<Segment>)
    requires ValidSegments(page, segs) && |segs| > 1 && base % page == 0
    ensures var c, last := Command(page, segs[0]), Command(page, segs[|segs| - 1]);
      && RoundUp(base + c.mapend + (last.mapstart - c.mapend), page) == base + last.mapstart
      && FootStart(page, segs[0]) <= c.mapend && last.mapstart <= FootEnd(page, segs[|segs| - 1])
  {
    var c := Command(page, segs[0]);
    ZeroIsAligned(page);
    CommandBounds(page, 0, segs[0]);
    MultiplesAdd(base, c.mapstart, page);
    ReservedRange(page, segs, base + c.mapstart);
  }

  lemma SameNarrow(sp: Space, sp': Space, lo: int, hi: int, first: int, last: int)
    requires SameBut(sp, sp', lo, hi) && first <= lo && hi <= last
    ensures SameBut(sp, sp', first, last)
  {
  }

  lemma HolesStay(page: int, base: int, segs: seq<Segment>, sp: Space, sp': Space)
    requires page > 0 && segs != [] && HolesClosed(page, base, segs, sp) && FeetOnly(page, base, segs, sp, sp')
    ensures HolesClosed(page, base, segs, sp')
  {
    hide FootStart, FootEnd, InFoot;
    forall x | base + FootStart(page, segs[0]) <= x < base + FootEnd(page, segs[|segs| - 1])
      && !InFoot(page, base, segs, x)
      ensures x in sp'.prot && sp'.prot[x] == PROT_NONE
    {
      assert Agree(sp, sp', x);
    }
  }

  lemma BesideStays(page: int, base: int, segs: seq<Segment>, sp: Space, sp0: Space, sp1: Space, sp2: Space)
    requires ValidSegments(page, segs) && segs != []
    requires Beside(page, base, segs, sp, sp0) && Beside(page, base, segs, sp0, sp1)
      && FeetOnly(page, base, segs, sp1, sp2)
    ensures Beside(page, base, segs, sp, sp2)
  {
    hide SameBut, FootStart, FootEnd, FeetOnly, ValidSegment;
    var lo, hi := base + FootStart(page, segs[0]), base + FootEnd(page, segs[|segs| - 1]);
    FeetBeside(page, base, segs, sp1, sp2);
    SameTwice(sp, sp0, sp1, lo, hi);
    SameTwice(sp, sp1, sp2, lo, hi);
  }

  lemma FeetBeside(page: int, base: int, segs: seq<Segment>, sp: Space, sp': Space)
    requires ValidSegments(page, segs) && segs != [] && FeetOnly(page, base, segs, sp, sp')
    ensures Beside(page, base, segs, sp, sp')
  {
    var lo, hi := base + FootStart(page, segs[0]), base + FootEnd(page, segs[|segs| - 1]);
    hide InFoot, FootStart, FootEnd, ValidSegments;
    forall x | !(lo <= x < hi) ensures Agree(sp, sp', x) {
      FeetInRange(page, base, segs, x);
    }
    AgreeOutside(sp, sp', lo, hi);
  }

  lemma AgreeOutside(sp: Space, sp': Space, lo: int, hi: int)
    requires forall x :: !(lo <= x < hi) ==> Agree(sp, sp', x)
    ensures SameBut(sp, sp', lo, hi)
  {
    forall x | !(lo <= x < hi)
      ensures (x in sp'.bytes <==> x in sp.bytes) && (x in sp'.prot <==> x in sp.prot)
      ensures (x in sp.bytes ==> sp'.bytes[x] == sp.bytes[x]) && (x in sp.prot ==> sp'.prot[x] == sp.prot[x])
    {
      assert Agree(sp, sp', x);
    }
  }

  lemma FeetInRange(page: int, base: int, segs: seq<Segment>, x: int)
    requires ValidSegments(page, segs) && segs != []
    requires !(base + FootStart(page, segs[0]) <= x < base + FootEnd(page, segs[|segs| - 1]))
    ensures !InFoot(page, base, segs, x)
  {
    hide FootStart, FootEnd, ValidSegment;
    forall i | 0 <= i < |segs| ensures !(base + FootStart(page, segs[i]) <= x < base + FootEnd(page, segs[i])) {
      FootForward(page, segs[0]);
      FootForward(page, segs[|segs| - 1]);
    }
  }

  lemma FootForward(page: int, g: Segment)
    requires page > 0 && ValidSegment(page, g)
    ensures FootStart(page, g) <= FootEnd(page, g)
  {
    hide RoundUp, RoundDown;
    RoundingBounds(g.vaddr, page);
    RoundingBounds(g.vaddr + g.memsz, page);
  }

  /** The pages of the file part are pages of the file. */
  lemma FilePages(page: int, g: Segment, n: int)
    requires page > 0 && ValidSegment(page, g) && g.offset + g.filesz <= n
    ensures var c := Command(page, g);
      0 <= c.mapoff && c.mapoff + (c.mapend - c.mapstart) <= RoundUp(n, page)
  {
    hide RoundUp, RoundDown, FootEnd, FootStart, Command;
    var c, d := Command(page, g), g.offset - g.vaddr;
    MapoffPositive(page, g);
    ZeroIsAligned(page);
    CommandBounds(page, 0, g);
    CommandEnds(page, g);
    MultiplesAdd(0, g.vaddr - g.offset, page);
    assert 0 - (g.vaddr - g.offset) == d;
    ShiftedRoundUp(d, c.dataend, page);
    assert d + c.dataend == g.offset + g.filesz;
    RoundingBounds(n, page);
    RoundUpLeast(g.offset + g.filesz, RoundUp(n, page), page);
  }

  /** The segment that ends up in memory: the first one of an ET_DYN object is
      taken from the start of the file, whatever its offset says. */
  ghost function Mapped(page: int, segs: seq<Segment>, postmap: bool, i: int): (g: Segment)
    requires page > 0 && 0 <= i < |segs|
  {
    if i == 0 && postmap then segs[0].(offset := segs[0].vaddr - Command(page, segs[0]).mapstart) else segs[i]
  }

  lemma MappedIs(page: int, segs: seq<Segment>, postmap: bool, i: int)
    requires ValidSegments(page, segs) && 0 <= i < |segs|
    ensures var g, c := segs[i], Command(page, segs[i]);
      var off := if i == 0 && postmap then 0 else c.mapoff;
      Mapped(page, segs, postmap, i) == g.(offset := off + g.vaddr - c.mapstart)
  {
    hide Command, ValidSegment;
    ZeroIsAligned(page);
    CommandBounds(page, 0, segs[i]);
  }

  lemma ZeroIsAligned(page: int)
    requires page > 0
    ensures 0 % page == 0
  {
    MultipleOf(0, page);
  }

  lemma Unchanged(sp: Space, lo: int, hi: int)
    ensures SameBut(sp, sp, lo, hi)
  {
  }

  lemma SameTwice(sp: Space, sp1: Space, sp2: Space, lo: int, hi: int)
    requires SameBut(sp, sp1, lo, hi) && SameBut(sp1, sp2, lo, hi)
    ensures SameBut(sp, sp2, lo, hi)
  {
  }

  /** Mapping a later segment leaves the image of an earlier one alone. */
  lemma EarlierKept(page: int, sp: Space, sp': Space, base: int, segs: seq<Segment>, postmap: bool, k: int,
      i: int, file: File)
    requires ValidSegments(page, segs) && 0 <= k < i < |segs| && base % page == 0
    requires SameBut(sp, sp', base + FootStart(page, segs[i]), base + FootEnd(page, segs[i]))
    requires Imaged(sp, base, Mapped(page, segs, postmap, k), file)
    ensures Imaged(sp', base, Mapped(page, segs, postmap, k), file)
  {
    var g := segs[k];
    CommandBounds(page, base, g);
    assert g.vaddr + g.memsz <= FootEnd(page, g) <= FootStart(page, segs[i]);
    assert ValidSegment(page, g);
    hide ValidSegments, Command, FootEnd, FootStart, FileByte;
    ImageKept(sp, sp', base, Mapped(page, segs, postmap, k), base + FootStart(page, segs[i]),
      base + FootEnd(page, segs[i]), file);
  }

  lemma ImageKept(sp: Space, sp': Space, base: int, g: Segment, lo: int, hi: int, file: File)
    requires SameBut(sp, sp', lo, hi) && base + g.vaddr + g.memsz <= lo && 0 <= g.filesz <= g.memsz
    requires Imaged(sp, base, g, file)
    ensures Imaged(sp', base, g, file)
  {
  }

  /** The range that is reserved for an ET_DYN object holds the first segment's
      file part, and the holes lie behind that. */
  lemma ReservedRange(page: int, segs: seq<Segment>, start: int)
    requires ValidSegments(page, segs) && segs != [] && start % page == 0
    ensures var c, last := Command(page, segs[0]), Command(page, segs[|segs| - 1]);
      var base := start - c.mapstart;
      && base % page == 0
      && base + c.mapend <= base + FootEnd(page, segs[|segs| - 1])
      && RoundUp(start + (last.allocend - c.mapstart), page) == base + FootEnd(page, segs[|segs| - 1])
      && c.mapend >= c.mapstart == FootStart(page, segs[0]) && last.mapstart <= FootEnd(page, segs[|segs| - 1])
      && (|segs| > 1 ==> c.mapend <= last.mapstart
                         && RoundUp(base + c.mapend + (last.mapstart - c.mapend), page) == base + last.mapstart)
  {
    var g, h := segs[0], segs[|segs| - 1];
    ZeroIsAligned(page);
    CommandBounds(page, 0, g);
    var base := start - Command(page, g).mapstart;
    MultiplesAdd(start, Command(page, g).mapstart, page);
    CommandBounds(page, base, g);
    CommandBounds(page, base, h);
    MultiplesAdd(base, Command(page, h).mapstart, page);
    RoundUpExact(base + Command(page, h).mapstart, page);
    FootOrder(page, segs);
    CommandEnds(page, g);
  }

  lemma FootOrder(page: int, segs: seq<Segment>)
    requires ValidSegments(page, segs) && segs != []
    ensures |segs| > 1 ==>
      FootEnd(page, segs[0]) <= FootStart(page, segs[|segs| - 1]) <= FootEnd(page, segs[|segs| - 1])
  {
    if |segs| > 1 {
      var h := segs[|segs| - 1];
      assert ValidSegment(page, h);
      RoundingBounds(h.vaddr, page);
      RoundingBounds(h.vaddr + h.memsz, page);
    }
  }

  lemma HolesAbove(sp: Space, sp': Space, base: int, c: LoadCmd, file: File, hi: int)
    requires FileMapped(sp, base, c, file, 0) && SameBut(sp, sp', base + c.mapend, hi)
    ensures FileMapped(sp', base, c, file, 0)
  {
  }

  /** Byte k of the file part of a segment. */
  function SegmentByte(file: File, offset: int, k: int): int { FileByte(file, offset + k) }

  /** For an ET_DYN object the first segment is right for every file that holds it
      exactly when its page offset is zero, or it takes nothing from the file. */
  lemma FirstSegmentRight(page: int, segs: seq<Segment>)
    requires ValidSegments(page, segs) && segs != []
    ensures var g, m := segs[0], Mapped(page, segs, true, 0);
      (forall file: File, k :: g.offset + g.filesz <= |file| && 0 <= k < g.filesz ==>
        SegmentByte(file, m.offset, k) == SegmentByte(file, g.offset, k))
      <==> g.filesz == 0 || Command(page, g).mapoff == 0
  {
    var g, m := segs[0], Mapped(page, segs, true, 0);
    assert ValidSegment(page, g);
    MappedIs(page, segs, true, 0);
    MappedIs(page, segs, false, 0);
    hide Command, ValidSegments, ValidSegment, Mapped;
    MapoffPositive(page, g);
    if g.filesz > 0 && Command(page, g).mapoff != 0 {
      var file := OneAt(g.offset, g.filesz);
      assert SegmentByte(file, m.offset, 0) != SegmentByte(file, g.offset, 0);
    }
  }

  /** A file of n + m bytes whose only non-zero byte is at position n. */
  function OneAt(n: int, m: int): (file: File)
    requires 0 <= n && 0 < m
    ensures |file| == n + m && forall k :: FileByte(file, k) == if k == n then 1 else 0
  {
    seq(n + m, k => if k == n then 1 else 0)
  }

  lemma MapoffPositive(page: int, g: Segment)
    requires page > 0 && ValidSegment(page, g)
    ensures 0 <= Command(page, g).mapoff && 0 <= g.offset
  {
    RoundingBounds(g.offset, page);
    if RoundDown(g.offset, page) < 0 { ZeroIsAligned(page); MultiplesApart(RoundDown(g.offset, page), 0, page); }
  }

  lemma CommandEnds(page: int, g: Segment)
    requires page > 0 && ValidSegment(page, g)
    ensures var c := Command(page, g);
      c.dataend == g.vaddr + g.filesz <= c.allocend == g.vaddr + g.memsz && c.prot == g.prot && 0 <= g.filesz
    ensures var end, mapend := g.vaddr + g.memsz, Command(page, g).mapend;
      ZeroPage(page, Command(page, g)) == if end < mapend then end else mapend
  {
  }

  lemma NothingChanged(sp: Space, lo: int, hi: int)
    requires hi <= lo
    ensures SameBut(sp, sp, lo, hi) && HasZeros(sp, lo, hi)
  {
  }

  /** File data, the cleared rest of its last page, and the zero pages make up
      the image of the segment. */
  lemma ZeroFilled(sp0: Space, sp1: Space, sp2: Space, base: int, c: LoadCmd, g: Segment, file: File, off: int,
                   end: int, zeropage: int)
    requires c.mapstart <= g.vaddr <= g.vaddr + g.filesz == c.dataend < c.allocend == g.vaddr + g.memsz
      && c.prot == g.prot
    requires c.dataend <= c.mapend && base + c.mapend <= end && base + c.allocend <= end
    requires zeropage == if c.allocend < c.mapend then base + c.allocend else base + c.mapend
    requires HasFile(sp0, base + c.mapstart, base + c.mapend, file, off)
    requires HasProt(sp1, base + c.mapstart, base + c.mapend, c.prot)
    requires SameBut(sp0, sp1, base + c.dataend, zeropage) && HasZeros(sp1, base + c.dataend, zeropage)
    requires if base + c.allocend > zeropage then
        SameBut(sp1, sp2, zeropage, end) && HasZeros(sp2, zeropage, end) && HasProt(sp2, zeropage, end, c.prot)
      else sp2 == sp1
    ensures SameBut(sp0, sp2, base + c.mapstart, end)
    ensures Imaged(sp2, base, g.(offset := off + g.vaddr - c.mapstart), file)
  {
  }

  lemma NoZeros(sp: Space, base: int, c: LoadCmd, g: Segment, file: File, off: int, end: int)
    requires c.mapstart <= g.vaddr <= g.vaddr + g.filesz == c.dataend == g.vaddr + g.memsz && c.prot == g.prot
    requires c.dataend <= c.mapend && FileMapped(sp, base, c, file, off)
    ensures SameBut(sp, sp, base + c.mapstart, end)
    ensures Imaged(sp, base, g.(offset := off + g.vaddr - c.mapstart), file)
  {
  }
}
