/** The ELF core file of a virtual machine: the program headers, the notes with the registers of
    the virtual CPUs, and the guest memory, as written and as a reader of core files finds it. */
module CoreFile {
  import opened Wrappers
  import opened Bytes
  import opened ProcessVm
  import opened PageMath

  const EHDR_SIZE := 64
  const PHDR_SIZE := 56
  const NHDR_SIZE := 12
  const NAME_SIZE := 8
  const HALF_LIMIT := 0x1_0000
  // The number of buffers that one `process_vm_readv` takes.
  const IOV_MAX := 1024

  const PT_LOAD := 1
  const PT_NOTE := 4
  const NT_PRSTATUS := 1
  const NT_PRPSINFO := 3
  const NT_PRXREG := 4
  const NT_PRXFPREG := 0x46e62b7f

  /** A memory slot: its memory in the hypervisor and its guest physical address. */
  datatype Mapping = Mapping(start: nat, size: nat, phys: nat, flags: nat)

  datatype Phdr = Phdr(ptype: nat, flags: nat, offset: nat, vaddr: nat, paddr: nat, filesz: nat, memsz: nat, align: nat)

  /** The payloads of the notes of a virtual CPU, and the sizes of all payloads. */
  datatype Vcpu = Vcpu(status: seq<Byte>, user: seq<Byte>, fpu: seq<Byte>)

  datatype Sizes = Sizes(info: nat, status: nat, user: nat, fpu: nat)

  // ----- records -----

  /** The ELF header in two halves: up to the offset of the section headers, and the rest. */
  function EhdrFrontWidths(): seq<nat> { [16, 2, 2, 4, 8, 8, 8] }

  function EhdrBackWidths(): seq<nat> { [4, 2, 2, 2, 2, 2, 2] }

  function EhdrFront(): seq<nat> { [0x0102_464c_457f, 4, 62, 1, 0, EHDR_SIZE, 0] }

  function EhdrBack(phnum: nat): seq<nat> { [0, EHDR_SIZE, PHDR_SIZE, phnum, 64, 0, 0] }

  function PhdrWidths(): seq<nat> { [4, 4, 8, 8, 8, 8, 8, 8] }

  function PhdrValues(h: Phdr): seq<nat> {
    [h.ptype, h.flags, h.offset, h.vaddr, h.paddr, h.filesz, h.memsz, h.align]
  }

  function NhdrWidths(): seq<nat> { [4, 4, 4] }

  lemma EhdrSums()
    ensures Sum(EhdrFrontWidths()) == 48 && Sum(EhdrBackWidths()) == 16
  {
  }

  lemma PhdrSum()
    ensures Sum(PhdrWidths()) == PHDR_SIZE
  {
  }

  lemma NhdrSum()
    ensures Sum(NhdrWidths()) == NHDR_SIZE
  {
  }

  function EncodePhdr(h: Phdr): (r: seq<Byte>)
    ensures |r| == PHDR_SIZE
  {
    PhdrSum();
    Encode(PhdrValues(h), PhdrWidths())
  }

  function DecodePhdr(bytes: seq<Byte>): Phdr
    requires |bytes| == PHDR_SIZE
  {
    PhdrSum();
    var v := Decode(bytes, PhdrWidths());
    Phdr(v[0], v[1], v[2], v[3], v[4], v[5], v[6], v[7])
  }

  function EncodeEhdr(phnum: nat): (r: seq<Byte>)
    ensures |r| == EHDR_SIZE
  {
    EhdrSums();
    Encode(EhdrFront(), EhdrFrontWidths()) + Encode(EhdrBack(phnum), EhdrBackWidths())
  }

  predicate PhdrFits(h: Phdr) {
    && h.ptype < Pow256(4) && h.flags < Pow256(4) && h.offset < Pow256(8) && h.vaddr < Pow256(8)
    && h.paddr < Pow256(8) && h.filesz < Pow256(8) && h.memsz < Pow256(8) && h.align < Pow256(8)
  }

  lemma PhdrReadsBack(h: Phdr)
    requires PhdrFits(h)
    ensures DecodePhdr(EncodePhdr(h)) == h
  {
    hide Pow256, Encode, Decode, Sum;
    PhdrSum();
    assert Fit(PhdrValues(h), PhdrWidths());
    DecodeEncode(PhdrValues(h), PhdrWidths());
  }

  // ----- layout -----

  /** The number of headers as it is written into the ELF header: 16 bits. */
  function Phnum(maps: seq<Mapping>): nat {
    (|maps| + 1) % HALF_LIMIT
  }

  function MetadataSize(maps: seq<Mapping>): nat {
    EHDR_SIZE + PHDR_SIZE * Phnum(maps)
  }

  function NoteSize(payload: nat): nat {
    NHDR_SIZE + NAME_SIZE + payload
  }

  function PtNoteSize(sizes: Sizes, vcpus: nat): nat {
    NoteSize(sizes.info) + vcpus * (NoteSize(sizes.user) + NoteSize(sizes.status) + NoteSize(sizes.fpu))
  }

  function DataOffset(maps: seq<Mapping>, sizes: Sizes, vcpus: nat): nat {
    PageAlign(MetadataSize(maps) + PtNoteSize(sizes, vcpus))
  }

  function DataSize(maps: seq<Mapping>): nat {
    if maps == [] then 0 else maps[0].size + DataSize(maps[1..])
  }

  function NoteHeader(offset: nat, size: nat): Phdr {
    Phdr(PT_NOTE, 0, offset, 0, 0, size, 0, 0)
  }

  function LoadHeader(m: Mapping, offset: nat): Phdr {
    Phdr(PT_LOAD, m.flags, offset, m.phys, m.phys, m.size, m.size, PAGE_SIZE)
  }

  function Loads(maps: seq<Mapping>, offset: nat): (r: seq<Phdr>)
    ensures |r| == |maps|
  {
    if maps == [] then [] else [LoadHeader(maps[0], offset)] + Loads(maps[1..], offset + maps[0].size)
  }

  function Headers(maps: seq<Mapping>, sizes: Sizes, vcpus: nat): (r: seq<Phdr>)
    ensures |r| == |maps| + 1
  {
    [NoteHeader(MetadataSize(maps), PtNoteSize(sizes, vcpus))] + Loads(maps, DataOffset(maps, sizes, vcpus))
  }

  function EncodeAll(hs: seq<Phdr>): (r: seq<Byte>)
    ensures |r| == PHDR_SIZE * |hs|
  {
    if hs == [] then [] else EncodeAll(hs[..|hs| - 1]) + EncodePhdr(hs[|hs| - 1])
  }

  /** The space reserved for the headers is the space they take exactly if their number fits into
      16 bits. */
  lemma MetadataExactly(maps: seq<Mapping>, sizes: Sizes, vcpus: nat)
    ensures |EncodeEhdr(Phnum(maps)) + EncodeAll(Headers(maps, sizes, vcpus))| == MetadataSize(maps)
            <==> |maps| + 1 < HALF_LIMIT
  {
    hide EncodeEhdr, EncodeAll, Loads;
    HeaderBytes(Phnum(maps), Headers(maps, sizes, vcpus));
    HeaderCount(maps, sizes, vcpus);
  }

  /** With 65535 memory slots the number of headers wraps to zero, and the notes are said to begin
      right behind the ELF header. */
  lemma MetadataWraps(maps: seq<Mapping>, sizes: Sizes, vcpus: nat)
    requires |maps| == 65535
    ensures Phnum(maps) == 0 && Headers(maps, sizes, vcpus)[0].offset == EHDR_SIZE
  {
    hide Loads;
  }

  lemma HeaderBytes(phnum: nat, hs: seq<Phdr>)
    ensures |EncodeEhdr(phnum) + EncodeAll(hs)| == EHDR_SIZE + PHDR_SIZE * |hs|
  {
  }

  lemma HeaderCount(maps: seq<Mapping>, sizes: Sizes, vcpus: nat)
    ensures |Headers(maps, sizes, vcpus)| == |maps| + 1
  {
  }

  /** Segment `i` begins where the segments before it end. */
  lemma {:induction false} LoadsAt(maps: seq<Mapping>, offset: nat, i: nat)
    requires i < |maps|
    ensures Loads(maps, offset)[i] == LoadHeader(maps[i], offset + DataSize(maps[..i]))
    decreases i
  {
    if i > 0 {
      LoadsAt(maps[1..], offset + maps[0].size, i - 1);
      assert maps[..i][1..] == maps[1..][..i - 1];
    }
  }

  lemma {:induction false} DataSizeSplit(maps: seq<Mapping>, i: nat)
    requires i <= |maps|
    ensures DataSize(maps) == DataSize(maps[..i]) + DataSize(maps[i..])
    decreases i
  {
    if i > 0 {
      DataSizeSplit(maps[1..], i - 1);
      assert maps[..i][1..] == maps[1..][..i - 1] && maps[1..][i - 1..] == maps[i..];
    } else {
      assert maps[0..] == maps;
    }
  }

  lemma NoData()
    ensures DataSize([]) == 0
  {
  }

  lemma OneData(m: Mapping)
    ensures DataSize([m]) == m.size
  {
  }

  lemma {:induction false} DataSizeAligned(maps: seq<Mapping>)
    requires forall m | m in maps :: m.size % PAGE_SIZE == 0
    ensures DataSize(maps) % PAGE_SIZE == 0
  {
    if maps != [] {
      DataSizeAligned(maps[1..]);
    }
  }

  lemma LoadsTile(maps: seq<Mapping>, offset: nat, i: nat)
    requires i < |maps| && offset % PAGE_SIZE == 0 && forall m | m in maps :: m.size % PAGE_SIZE == 0
    ensures var hs := Loads(maps, offset);
            && hs[i].offset % PAGE_SIZE == 0 && hs[i].filesz == maps[i].size
            && hs[i].offset + hs[i].filesz == if i + 1 < |maps| then hs[i + 1].offset else offset + DataSize(maps)
  {
    hide DataSize, Loads;
    LoadsAt(maps, offset, i);
    assert maps[..i + 1][..i] == maps[..i] && maps[..i + 1][i..] == [maps[i]];
    DataSizeSplit(maps[..i + 1], i);
    OneData(maps[i]);
    DataSizeAligned(maps[..i]);
    if i + 1 < |maps| {
      LoadsAt(maps, offset, i + 1);
    } else {
      assert maps[..i + 1] == maps;
    }
  }

  lemma DataOffsetAligned(maps: seq<Mapping>, sizes: Sizes, vcpus: nat)
    ensures DataOffset(maps, sizes, vcpus) % PAGE_SIZE == 0
    ensures MetadataSize(maps) + PtNoteSize(sizes, vcpus) <= DataOffset(maps, sizes, vcpus)
  {
    hide MetadataSize, PtNoteSize;
  }

  /** The segments: the notes begin right behind the headers, if the number of headers fits into 16
      bits, and end before the memory; the memory segments follow each other without a gap or an
      overlap up to the end of the file, and each begins at a page boundary. */
  lemma SegmentsTile(maps: seq<Mapping>, sizes: Sizes, vcpus: nat, i: nat)
    requires i < |maps| && forall m | m in maps :: m.size % PAGE_SIZE == 0
    ensures var hs := Headers(maps, sizes, vcpus);
            var data := DataOffset(maps, sizes, vcpus);
            && (hs[0].offset == |EncodeEhdr(Phnum(maps)) + EncodeAll(hs)| <==> |maps| + 1 < HALF_LIMIT)
            && hs[0].offset + hs[0].filesz <= hs[1].offset == data
            && hs[i + 1].offset % PAGE_SIZE == 0 && hs[i + 1].filesz == maps[i].size
            && hs[i + 1].offset + hs[i + 1].filesz
               == if i + 1 < |maps| then hs[i + 2].offset else data + DataSize(maps)
  {
    hide Loads, PtNoteSize, MetadataSize, DataSize, DataOffset, EncodeEhdr, EncodeAll;
    var data := DataOffset(maps, sizes, vcpus);
    MetadataExactly(maps, sizes, vcpus);
    DataOffsetAligned(maps, sizes, vcpus);
    LoadsAt(maps, data, 0);
    NoData();
    LoadsTile(maps, data, i);
  }

  // ----- notes -----

  const CORE_NAME: seq<Byte> := [67, 79, 82, 69, 0, 0, 0, 0]
  const LINUX_NAME: seq<Byte> := [76, 73, 78, 85, 88, 0, 0, 0]

  function NoteBytes(name: seq<Byte>, ntype: nat, payload: seq<Byte>): (r: seq<Byte>)
    requires |name| == NAME_SIZE
    ensures |r| == NoteSize(|payload|)
  {
    NhdrSum();
    Encode([5, |payload|, ntype], NhdrWidths()) + name + payload
  }

  function VcpuNotes(v: Vcpu): (r: seq<Byte>)
    ensures |r| == NoteSize(|v.status|) + NoteSize(|v.user|) + NoteSize(|v.fpu|)
  {
    NoteBytes(CORE_NAME, NT_PRSTATUS, v.status) + NoteBytes(CORE_NAME, NT_PRXREG, v.user)
    + NoteBytes(LINUX_NAME, NT_PRXFPREG, v.fpu)
  }

  function AllVcpuNotes(vcpus: seq<Vcpu>): seq<Byte> {
    if vcpus == [] then [] else AllVcpuNotes(vcpus[..|vcpus| - 1]) + VcpuNotes(vcpus[|vcpus| - 1])
  }

  function AllNotes(info: seq<Byte>, vcpus: seq<Vcpu>): seq<Byte> {
    NoteBytes(CORE_NAME, NT_PRPSINFO, info) + AllVcpuNotes(vcpus)
  }

  predicate HasSizes(v: Vcpu, sizes: Sizes) {
    |v.status| == sizes.status && |v.user| == sizes.user && |v.fpu| == sizes.fpu
  }

  predicate Sized(info: seq<Byte>, vcpus: seq<Vcpu>, sizes: Sizes) {
    |info| == sizes.info && forall i | 0 <= i < |vcpus| :: HasSizes(vcpus[i], sizes)
  }

  lemma {:induction false} VcpuNotesSize(vcpus: seq<Vcpu>, sizes: Sizes)
    requires forall i | 0 <= i < |vcpus| :: HasSizes(vcpus[i], sizes)
    ensures |AllVcpuNotes(vcpus)| == |vcpus| * (NoteSize(sizes.user) + NoteSize(sizes.status) + NoteSize(sizes.fpu))
  {
    hide NoteSize, NoteBytes;
    if vcpus != [] {
      var n := |vcpus| - 1;
      VcpuNotesSize(vcpus[..n], sizes);
      OneVcpuSize(vcpus[n], sizes);
      var one := NoteSize(sizes.user) + NoteSize(sizes.status) + NoteSize(sizes.fpu);
      assert |vcpus| * one == n * one + one;
    }
  }

  lemma OneVcpuSize(v: Vcpu, sizes: Sizes)
    requires HasSizes(v, sizes)
    ensures |VcpuNotes(v)| == NoteSize(sizes.user) + NoteSize(sizes.status) + NoteSize(sizes.fpu)
  {
  }

  /** The notes take exactly the space that their header declares. */
  lemma NotesFill(info: seq<Byte>, vcpus: seq<Vcpu>, sizes: Sizes)
    requires Sized(info, vcpus, sizes)
    ensures |AllNotes(info, vcpus)| == PtNoteSize(sizes, |vcpus|)
  {
    VcpuNotesSize(vcpus, sizes);
  }

  datatype Note = Note(ntype: nat, desc: seq<Byte>)

  function Align4(n: nat): nat {
    (n + 3) / 4 * 4
  }

  /** A reader of notes: each note has a header, a name and a description, padded to four bytes. */
  function ParseNotes(bytes: seq<Byte>): Option<seq<Note>>
    decreases |bytes|
  {
    if bytes == [] then Some([])
    else if |bytes| < NHDR_SIZE then None
    else
      NhdrSum();
      var fields := Decode(bytes[..NHDR_SIZE], NhdrWidths());
      var start := NHDR_SIZE + Align4(fields[0]);
      var end := start + Align4(fields[1]);
      if end > |bytes| then None
      else
        var rest := ParseNotes(bytes[end..]);
        if rest.None? then None else Some([Note(fields[2], bytes[start..start + fields[1]])] + rest.value)
  }

  lemma ParseOne(name: seq<Byte>, ntype: nat, payload: seq<Byte>, rest: seq<Byte>)
    requires |name| == NAME_SIZE && |payload| % 4 == 0 && |payload| < Pow256(4) && ntype < Pow256(4)
    requires ParseNotes(rest).Some?
    ensures ParseNotes(NoteBytes(name, ntype, payload) + rest)
            == Some([Note(ntype, payload)] + ParseNotes(rest).value)
  {
    hide Pow256, NoteBytes, ParseNotes, Decode;
    var bytes := NoteBytes(name, ntype, payload) + rest;
    NoteFields(name, ntype, payload, rest);
    PowValues();
    ParseStep(bytes, 5, |payload|, ntype);
  }

  /** One step of the reader, for given fields of the header. */
  lemma ParseStep(bytes: seq<Byte>, namesz: nat, descsz: nat, ntype: nat)
    requires |bytes| >= NHDR_SIZE && Sum(NhdrWidths()) == NHDR_SIZE
    requires Decode(bytes[..NHDR_SIZE], NhdrWidths()) == [namesz, descsz, ntype]
    requires NHDR_SIZE + Align4(namesz) + Align4(descsz) <= |bytes|
    requires ParseNotes(bytes[NHDR_SIZE + Align4(namesz) + Align4(descsz)..]).Some?
    ensures var start := NHDR_SIZE + Align4(namesz);
            ParseNotes(bytes) == Some([Note(ntype, bytes[start..start + descsz])]
                                      + ParseNotes(bytes[start + Align4(descsz)..]).value)
  {
    hide Decode, Sum, Align4;
    assert descsz <= Align4(descsz) by { Align4Grows(descsz); }
  }

  lemma Align4Grows(n: nat)
    ensures n <= Align4(n)
  {
  }

  /** Where the parts of a note are. */
  lemma NoteFields(name: seq<Byte>, ntype: nat, payload: seq<Byte>, rest: seq<Byte>)
    requires |name| == NAME_SIZE && |payload| < Pow256(4) && ntype < Pow256(4)
    ensures var bytes := NoteBytes(name, ntype, payload) + rest;
            && |bytes| == 20 + |payload| + |rest| && Sum(NhdrWidths()) == NHDR_SIZE
            && Decode(bytes[..NHDR_SIZE], NhdrWidths()) == [5, |payload|, ntype]
            && bytes[20..20 + |payload|] == payload && bytes[20 + |payload|..] == rest
  {
    NhdrSum();
    PowValues();
    hide Encode, Decode, Pow256, Sum;
    var fields := [5, |payload|, ntype];
    assert Fit(fields, NhdrWidths());
    DecodeEncode(fields, NhdrWidths());
    EncodeLength(fields, NhdrWidths());
    Slices(Encode(fields, NhdrWidths()), name, payload, rest);
  }

  lemma Slices(a: seq<Byte>, b: seq<Byte>, c: seq<Byte>, d: seq<Byte>)
    ensures var s := a + b + c + d;
            var x := |a| + |b|;
            && s[..|a|] == a && s[x..x + |c|] == c && s[x + |c|..] == d
  {
  }

  function VcpuNoteList(vcpus: seq<Vcpu>): seq<Note> {
    if vcpus == [] then []
    else
      var v := vcpus[|vcpus| - 1];
      VcpuNoteList(vcpus[..|vcpus| - 1])
      + [Note(NT_PRSTATUS, v.status), Note(NT_PRXREG, v.user), Note(NT_PRXFPREG, v.fpu)]
  }

  /** The sizes of the payloads are multiples of four that fit into the header of a note. */
  predicate Padded(sizes: Sizes) {
    && sizes.info % 4 == 0 && sizes.status % 4 == 0 && sizes.user % 4 == 0 && sizes.fpu % 4 == 0
    && sizes.info < Pow256(4) && sizes.status < Pow256(4) && sizes.user < Pow256(4) && sizes.fpu < Pow256(4)
  }

  lemma ParseVcpu(v: Vcpu, sizes: Sizes, rest: seq<Byte>)
    requires HasSizes(v, sizes) && Padded(sizes) && ParseNotes(rest).Some?
    ensures ParseNotes(VcpuNotes(v) + rest)
            == Some([Note(NT_PRSTATUS, v.status), Note(NT_PRXREG, v.user), Note(NT_PRXFPREG, v.fpu)]
                    + ParseNotes(rest).value)
  {
    PowValues();
    NameSizes();
    hide ParseNotes, NoteBytes, Pow256;
    var c := NoteBytes(LINUX_NAME, NT_PRXFPREG, v.fpu);
    var b := NoteBytes(CORE_NAME, NT_PRXREG, v.user);
    ParseOne(LINUX_NAME, NT_PRXFPREG, v.fpu, rest);
    ParseOne(CORE_NAME, NT_PRXREG, v.user, c + rest);
    ParseOne(CORE_NAME, NT_PRSTATUS, v.status, b + (c + rest));
    Assoc(NoteBytes(CORE_NAME, NT_PRSTATUS, v.status), b, c, rest);
    var x, y, z := Note(NT_PRSTATUS, v.status), Note(NT_PRXREG, v.user), Note(NT_PRXFPREG, v.fpu);
    Assoc([x], [y], [z], ParseNotes(rest).value);
    assert [x] + [y] + [z] == [x, y, z];
  }

  lemma NameSizes()
    ensures |CORE_NAME| == NAME_SIZE && |LINUX_NAME| == NAME_SIZE
  {
  }

  lemma Assoc<T>(a: seq<T>, b: seq<T>, c: seq<T>, d: seq<T>)
    ensures a + b + c + d == a + (b + (c + d))
  {
  }

  lemma {:induction false} ParseVcpus(vcpus: seq<Vcpu>, sizes: Sizes, rest: seq<Byte>)
    requires (forall i | 0 <= i < |vcpus| :: HasSizes(vcpus[i], sizes)) && Padded(sizes) && ParseNotes(rest).Some?
    ensures ParseNotes(AllVcpuNotes(vcpus) + rest) == Some(VcpuNoteList(vcpus) + ParseNotes(rest).value)
    decreases |vcpus|
  {
    hide ParseNotes, VcpuNotes, Padded;
    if vcpus == [] {
      assert AllVcpuNotes(vcpus) + rest == rest;
      assert VcpuNoteList(vcpus) + ParseNotes(rest).value == ParseNotes(rest).value;
    } else {
      var n := |vcpus| - 1;
      ParseVcpu(vcpus[n], sizes, rest);
      ParseVcpus(vcpus[..n], sizes, VcpuNotes(vcpus[n]) + rest);
      assert AllVcpuNotes(vcpus) + rest == AllVcpuNotes(vcpus[..n]) + (VcpuNotes(vcpus[n]) + rest);
      var v := vcpus[n];
      var three := [Note(NT_PRSTATUS, v.status), Note(NT_PRXREG, v.user), Note(NT_PRXFPREG, v.fpu)];
      assert VcpuNoteList(vcpus) + ParseNotes(rest).value
             == VcpuNoteList(vcpus[..n]) + (three + ParseNotes(rest).value);
    }
  }

  /** A reader finds the note of the process and the three notes of every virtual CPU, in order. */
  lemma NotesReadBack(info: seq<Byte>, vcpus: seq<Vcpu>, sizes: Sizes)
    requires Sized(info, vcpus, sizes) && Padded(sizes)
    ensures ParseNotes(AllNotes(info, vcpus)) == Some([Note(NT_PRPSINFO, info)] + VcpuNoteList(vcpus))
  {
    assert ParseNotes([]) == Some([]);
    assert Pow256(4) == 0x1_0000_0000;
    hide ParseNotes, NoteBytes, Pow256, AllVcpuNotes, VcpuNoteList;
    ParseVcpus(vcpus, sizes, []);
    assert AllVcpuNotes(vcpus) + [] == AllVcpuNotes(vcpus) && VcpuNoteList(vcpus) + [] == VcpuNoteList(vcpus);
    ParseOne(CORE_NAME, NT_PRPSINFO, info, AllVcpuNotes(vcpus));
  }

  // ----- reading memory back -----

  predicate HasHeaders(file: seq<Byte>, hs: seq<Phdr>) {
    && EHDR_SIZE + PHDR_SIZE * |hs| <= |file|
    && file[EHDR_SIZE..EHDR_SIZE + PHDR_SIZE * |hs|] == EncodeAll(hs)
  }

  predicate HasBytes(file: seq<Byte>, offset: nat, bytes: seq<Byte>) {
    offset + |bytes| <= |file| && file[offset..offset + |bytes|] == bytes
  }

  /** The file as it should be: the ELF header, the program headers, the notes where their header
      says, and the memory up to the end. */
  predicate IsCore(file: seq<Byte>, maps: seq<Mapping>, sizes: Sizes, info: seq<Byte>, vcpus: seq<Vcpu>,
                   data: seq<Byte>) {
    && HasBytes(file, 0, EncodeEhdr(Phnum(maps)))
    && HasHeaders(file, Headers(maps, sizes, |vcpus|))
    && HasBytes(file, MetadataSize(maps), AllNotes(info, vcpus))
    && HasBytes(file, DataOffset(maps, sizes, |vcpus|), data)
    && |file| == DataOffset(maps, sizes, |vcpus|) + |data| && |data| == DataSize(maps)
  }

  /** A reader of core files: the byte of guest physical address `a` is looked up through the first
      memory segment that contains it. */
  function ReadPhys(file: seq<Byte>, a: nat): Option<Byte> {
    if |file| < EHDR_SIZE then None
    else
      var (phoff, phnum) := ReadEhdr(file[..EHDR_SIZE]);
      Search(file, phoff, phnum, 0, a)
  }

  /** Where the program headers are, and how many. */
  function ReadEhdr(bytes: seq<Byte>): (nat, nat)
    requires |bytes| == EHDR_SIZE
  {
    EhdrSums();
    (Decode(bytes[..48], EhdrFrontWidths())[5], Decode(bytes[48..], EhdrBackWidths())[3])
  }

  function HeaderOf(file: seq<Byte>, pos: nat): Option<Phdr> {
    if pos + PHDR_SIZE > |file| then None else Some(DecodePhdr(file[pos..pos + PHDR_SIZE]))
  }

  function Search(file: seq<Byte>, phoff: nat, phnum: nat, i: nat, a: nat): Option<Byte>
    decreases phnum - i
  {
    var h := HeaderOf(file, phoff + PHDR_SIZE * i);
    if i >= phnum || h.None? then None
    else if h.value.ptype == PT_LOAD && h.value.paddr <= a < h.value.paddr + h.value.filesz then
      var at := h.value.offset + (a - h.value.paddr);
      if at < |file| then Some(file[at]) else None
    else Search(file, phoff, phnum, i + 1, a)
  }

  lemma EhdrReadsBack(phnum: nat)
    requires phnum < HALF_LIMIT
    ensures |EncodeEhdr(phnum)| == EHDR_SIZE && ReadEhdr(EncodeEhdr(phnum)) == (EHDR_SIZE, phnum)
  {
    EhdrSums();
    PowValues();
    hide Pow256, Encode, Decode, Sum;
    assert Fit(EhdrFront(), EhdrFrontWidths());
    assert Fit(EhdrBack(phnum), EhdrBackWidths());
    DecodeEncode(EhdrFront(), EhdrFrontWidths());
    DecodeEncode(EhdrBack(phnum), EhdrBackWidths());
    EncodeLength(EhdrFront(), EhdrFrontWidths());
    EncodeLength(EhdrBack(phnum), EhdrBackWidths());
    var bytes := EncodeEhdr(phnum);
    assert bytes[..48] == Encode(EhdrFront(), EhdrFrontWidths());
    assert bytes[48..] == Encode(EhdrBack(phnum), EhdrBackWidths());
  }

  lemma EncodeLength(values: seq<nat>, widths: seq<nat>)
    requires |values| == |widths|
    ensures |Encode(values, widths)| == Sum(widths)
  {
  }

  lemma PowValues()
    ensures Pow256(2) == 0x1_0000 && Pow256(4) == 0x1_0000_0000 && Pow256(8) == 0x1_0000_0000_0000_0000
    ensures Pow256(16) >= Pow256(8)
  {
    assert Pow256(12) == Pow256(8) * 0x1_0000_0000;
    assert Pow256(16) == Pow256(12) * 0x1_0000_0000;
  }

  lemma {:induction false} EncodeAllAt(hs: seq<Phdr>, i: nat)
    requires i < |hs|
    ensures PHDR_SIZE * i + PHDR_SIZE <= |EncodeAll(hs)|
    ensures EncodeAll(hs)[PHDR_SIZE * i..PHDR_SIZE * i + PHDR_SIZE] == EncodePhdr(hs[i])
    decreases |hs|
  {
    hide EncodePhdr;
    var n := |hs| - 1;
    EncodePhdrLength(hs[n]);
    EncodeAllLength(hs[..n]);
    if i < n {
      EncodeAllAt(hs[..n], i);
      assert EncodeAll(hs)[PHDR_SIZE * i..PHDR_SIZE * i + PHDR_SIZE]
             == EncodeAll(hs[..n])[PHDR_SIZE * i..PHDR_SIZE * i + PHDR_SIZE];
    }
  }

  lemma EncodePhdrLength(h: Phdr)
    ensures |EncodePhdr(h)| == PHDR_SIZE
  {
  }

  lemma EncodeAllLength(hs: seq<Phdr>)
    ensures |EncodeAll(hs)| == PHDR_SIZE * |hs|
  {
  }

  predicate MappingFits(m: Mapping) {
    m.flags < Pow256(4) && m.phys < Pow256(8) && m.size < Pow256(8)
  }

  predicate PhysApart(a: Mapping, b: Mapping) {
    a.phys + a.size <= b.phys || b.phys + b.size <= a.phys
  }

  /** What makes a file readable: few enough slots, numbers that fit, and distinct addresses. */
  ghost predicate Readable(maps: seq<Mapping>, sizes: Sizes, vcpus: nat) {
    && |maps| + 1 < HALF_LIMIT && DataOffset(maps, sizes, vcpus) + DataSize(maps) < Pow256(8)
    && (forall i | 0 <= i < |maps| :: MappingFits(maps[i]))
    && PhysDistinct(maps)
  }

  lemma HeaderFits(maps: seq<Mapping>, sizes: Sizes, vcpus: nat, i: nat)
    requires Readable(maps, sizes, vcpus) && i < |maps| + 1
    ensures PhdrFits(Headers(maps, sizes, vcpus)[i])
  {
    PowValues();
    var data := DataOffset(maps, sizes, vcpus);
    DataOffsetAligned(maps, sizes, vcpus);
    hide Pow256, DataOffset, MetadataSize, PtNoteSize, Loads, DataSize;
    if i > 0 {
      LoadsAt(maps, data, i - 1);
      DataSizeSplit(maps, i - 1);
      assert MappingFits(maps[i - 1]);
    }
  }

  /** The reader sees header `i` as it was written. */
  lemma HeaderAt(file: seq<Byte>, hs: seq<Phdr>, i: nat)
    requires HasHeaders(file, hs) && i < |hs| && PhdrFits(hs[i])
    ensures HeaderOf(file, EHDR_SIZE + PHDR_SIZE * i) == Some(hs[i])
  {
    hide EncodeAll, EncodePhdr, DecodePhdr, PhdrFits;
    EncodeAllAt(hs, i);
    EncodeAllLength(hs);
    PhdrReadsBack(hs[i]);
    SliceOfSlice(file, EHDR_SIZE, EHDR_SIZE + PHDR_SIZE * |hs|, PHDR_SIZE * i, PHDR_SIZE * i + PHDR_SIZE);
  }

  lemma SliceOfSlice(s: seq<Byte>, a: nat, b: nat, x: nat, y: nat)
    requires a <= b <= |s| && x <= y <= b - a
    ensures s[a..b][x..y] == s[a + x..a + y]
  {
    forall k | 0 <= k < y - x ensures s[a..b][x..y][k] == s[a + x..a + y][k] {
      assert s[a..b][x + k] == s[a + x + k];
    }
  }

  lemma EhdrAt(file: seq<Byte>, phnum: nat)
    requires HasBytes(file, 0, EncodeEhdr(phnum)) && phnum < HALF_LIMIT
    ensures EHDR_SIZE <= |file| && ReadEhdr(file[..EHDR_SIZE]) == (EHDR_SIZE, phnum)
  {
    EhdrReadsBack(phnum);
    hide EncodeEhdr, ReadEhdr;
    assert file[..EHDR_SIZE] == file[0..0 + |EncodeEhdr(phnum)|];
  }

  lemma ByteOf(file: seq<Byte>, offset: nat, bytes: seq<Byte>, k: nat)
    requires HasBytes(file, offset, bytes) && k < |bytes|
    ensures file[offset + k] == bytes[k]
  {
    assert file[offset..offset + |bytes|][k] == file[offset + k];
  }

  /** The headers that a reader sees. */
  ghost predicate Sees(file: seq<Byte>, maps: seq<Mapping>, offset: nat) {
    && (var h := HeaderOf(file, EHDR_SIZE); h.Some? && h.value.ptype == PT_NOTE)
    && forall k: nat | k < |maps| ::
         HeaderOf(file, EHDR_SIZE + PHDR_SIZE * (k + 1)) == Some(LoadHeader(maps[k], offset + DataSize(maps[..k])))
  }

  lemma SeesAll(file: seq<Byte>, maps: seq<Mapping>, sizes: Sizes, vcpus: nat)
    requires HasHeaders(file, Headers(maps, sizes, vcpus)) && Readable(maps, sizes, vcpus)
    ensures Sees(file, maps, DataOffset(maps, sizes, vcpus))
  {
    hide HasHeaders, HeaderOf, Readable, DataOffset, MetadataSize, PtNoteSize, Loads, DataSize, PhdrFits;
    var hs, offset := Headers(maps, sizes, vcpus), DataOffset(maps, sizes, vcpus);
    HeaderCount(maps, sizes, vcpus);
    HeaderFits(maps, sizes, vcpus, 0);
    HeaderAt(file, hs, 0);
    forall k: nat | k < |maps|
      ensures HeaderOf(file, EHDR_SIZE + PHDR_SIZE * (k + 1))
              == Some(LoadHeader(maps[k], offset + DataSize(maps[..k])))
    {
      HeaderFits(maps, sizes, vcpus, k + 1);
      HeaderAt(file, hs, k + 1);
      LoadsAt(maps, offset, k);
    }
  }

  ghost predicate PhysDistinct(maps: seq<Mapping>) {
    forall i, j | 0 <= i < j < |maps| :: PhysApart(maps[i], maps[j])
  }

  lemma {:induction false} SearchFinds(file: seq<Byte>, maps: seq<Mapping>, offset: nat, i: nat, a: nat, k: nat)
    requires Sees(file, maps, offset) && PhysDistinct(maps) && k <= i + 1
    requires i < |maps| && maps[i].phys <= a < maps[i].phys + maps[i].size
    requires offset + DataSize(maps[..i]) + (a - maps[i].phys) < |file|
    ensures Search(file, EHDR_SIZE, |maps| + 1, k, a) == Some(file[offset + DataSize(maps[..i]) + (a - maps[i].phys)])
    decreases i + 1 - k
  {
    hide HeaderOf, DataSize;
    if k == 0 {
      SearchFinds(file, maps, offset, i, a, 1);
    } else {
      assert HeaderOf(file, EHDR_SIZE + PHDR_SIZE * (k - 1 + 1))
             == Some(LoadHeader(maps[k - 1], offset + DataSize(maps[..k - 1])));
      if k <= i {
        assert PhysApart(maps[k - 1], maps[i]);
        SearchFinds(file, maps, offset, i, a, k + 1);
      }
    }
  }

  function Sources(maps: seq<Mapping>): seq<Iov> {
    seq(|maps|, i requires 0 <= i < |maps| => Iov(maps[i].start, maps[i].size))
  }

  /** Byte `d` of slot `i` in the dump of all slots. */
  lemma {:induction false} GatheredAt(mem: Memory, maps: seq<Mapping>, i: nat, d: nat)
    requires AllMapped(mem, Sources(maps)) && i < |maps| && d < maps[i].size
    ensures var at := DataSize(maps[..i]) + d;
            && at < |Gather(mem, Sources(maps))| && maps[i].start + d in mem
            && Gather(mem, Sources(maps))[at] == mem[maps[i].start + d]
    decreases |maps|
  {
    var iovs := Sources(maps);
    assert iovs[1..] == Sources(maps[1..]);
    assert forall j | 0 <= j < |iovs[1..]| :: iovs[1..][j] == iovs[j + 1];
    if i == 0 {
      assert Mapped(mem, iovs[0]);
      assert ReadBytes(mem, iovs[0])[d] == mem[maps[0].start + d];
    } else {
      GatheredAt(mem, maps[1..], i - 1, d);
      assert maps[..i][1..] == maps[1..][..i - 1];
    }
  }

  /** The memory part of the file: what was read up to the first slot that is not mapped, and behind
      it what the file had there. */
  function Dumped(mem: Memory, maps: seq<Mapping>, stale: seq<Byte>): (r: seq<Byte>)
    requires |stale| == DataSize(maps)
    ensures |r| == DataSize(maps)
  {
    ReachedMapped(mem, Sources(maps));
    SourcesTotal(maps);
    var read := Gather(mem, Reached(mem, Sources(maps)));
    read + stale[|read|..]
  }

  /** Slot `i` and all slots before it are mapped in the hypervisor. */
  predicate ReadableUpTo(mem: Memory, maps: seq<Mapping>, i: nat)
    requires i < |maps|
  {
    forall j | 0 <= j <= i :: Mapped(mem, Iov(maps[j].start, maps[j].size))
  }

  lemma {:induction false} DataSizeMonotone(maps: seq<Mapping>, i: nat, j: nat)
    requires i <= j <= |maps|
    ensures DataSize(maps[..i]) <= DataSize(maps[..j])
  {
    DataSizeSplit(maps[..j], i);
    assert maps[..j][..i] == maps[..i];
  }

  lemma {:induction false} SlotEnd(maps: seq<Mapping>, i: nat)
    requires i < |maps|
    ensures DataSize(maps[..i + 1]) == DataSize(maps[..i]) + maps[i].size
  {
    hide DataSize;
    DataSizeSplit(maps[..i + 1], i);
    assert maps[..i + 1][..i] == maps[..i] && maps[..i + 1][i..] == [maps[i]];
    OneData(maps[i]);
  }

  /** Which slots are read, and how much that is. */
  lemma {:induction false} ReachedSlots(mem: Memory, maps: seq<Mapping>, i: nat)
    requires i < |maps|
    ensures var n := |Reached(mem, Sources(maps))|;
            && n <= |maps| && Reached(mem, Sources(maps)) == Sources(maps[..n])
            && AllMapped(mem, Sources(maps[..n])) && |Gather(mem, Sources(maps[..n]))| == DataSize(maps[..n])
            && (i < n <==> ReadableUpTo(mem, maps, i))
  {
    hide DataSize, Gather, Total, Reached;
    var iovs := Sources(maps);
    var n := |Reached(mem, iovs)|;
    ReachedPrefix(mem, iovs);
    assert Sources(maps[..n]) == iovs[..n];
    GatherTotal(mem, iovs[..n]);
    SourcesTotal(maps[..n]);
    if i < n {
      forall j | 0 <= j <= i ensures Mapped(mem, Iov(maps[j].start, maps[j].size)) {
        assert Mapped(mem, iovs[..n][j]);
      }
    }
  }

  /** Byte `d` of slot `i` in the memory part of the file. */
  lemma {:induction false} DumpedAt(mem: Memory, maps: seq<Mapping>, stale: seq<Byte>, i: nat, d: nat)
    requires |stale| == DataSize(maps) && i < |maps| && d < maps[i].size
    ensures var at := DataSize(maps[..i]) + d;
            && at < |Dumped(mem, maps, stale)|
            && if ReadableUpTo(mem, maps, i) then
                 maps[i].start + d in mem && Dumped(mem, maps, stale)[at] == mem[maps[i].start + d]
               else Dumped(mem, maps, stale)[at] == stale[at]
  {
    hide DataSize, Gather, Total, Reached, ReadableUpTo;
    var n := |Reached(mem, Sources(maps))|;
    ReachedSlots(mem, maps, i);
    SlotEnd(maps, i);
    DataSizeMonotone(maps, i + 1, |maps|);
    assert maps[..|maps|] == maps;
    if i < n {
      GatheredAt(mem, maps[..n], i, d);
      assert maps[..n][..i] == maps[..i];
    } else {
      DataSizeMonotone(maps, n, i);
    }
  }

  /** Every guest physical address of a memory slot reads back, through the headers of the file, as
      the byte that the hypervisor had in memory, exactly if the slot and all slots before it could
      be read; otherwise as the byte that was in the file. */
  lemma {:induction false} ReadsBack(file: seq<Byte>, maps: seq<Mapping>, sizes: Sizes, info: seq<Byte>,
                                     vcpus: seq<Vcpu>, mem: Memory, stale: seq<Byte>, i: nat, a: nat)
    requires |stale| == DataSize(maps) && Readable(maps, sizes, |vcpus|)
    requires IsCore(file, maps, sizes, info, vcpus, Dumped(mem, maps, stale))
    requires i < |maps| && maps[i].phys <= a < maps[i].phys + maps[i].size
    ensures var d := a - maps[i].phys;
            if ReadableUpTo(mem, maps, i) then
              maps[i].start + d in mem && ReadPhys(file, a) == Some(mem[maps[i].start + d])
            else
              DataSize(maps[..i]) + d < |stale| && ReadPhys(file, a) == Some(stale[DataSize(maps[..i]) + d])
  {
    hide Dumped, Search, ReadEhdr, EncodeEhdr, Headers, AllNotes, DataSize, DataOffset, Sees, MappingFits, ReadableUpTo,
         HasBytes, HasHeaders, MetadataSize, PhysDistinct, Pow256;
    var data, offset := Dumped(mem, maps, stale), DataOffset(maps, sizes, |vcpus|);
    DumpedAt(mem, maps, stale, i, a - maps[i].phys);
    EhdrAt(file, Phnum(maps));
    SeesAll(file, maps, sizes, |vcpus|);
    SearchFinds(file, maps, offset, i, a, 0);
    ByteOf(file, offset, data, DataSize(maps[..i]) + (a - maps[i].phys));
  }

  /** A slot that cannot be read goes unnoticed: the call succeeds, since the first slot can be read,
      and the dump has the old content of the file in its place. */
  lemma {:induction false} UnreadableSlot(stale: seq<Byte>)
    requires |stale| == 8192
    ensures var maps := [Mapping(0, 4096, 0, 6), Mapping(8192, 4096, 4096, 6)];
            var mem := OneAt(4096, 0);
            && DataSize(maps) == 8192 && Total(Reached(mem, Sources(maps))) == 4096
            && Dumped(mem, maps, stale)[4096..] == stale[4096..]
  {
    var maps, mem := [Mapping(0, 4096, 0, 6), Mapping(8192, 4096, 4096, 6)], OneAt(4096, 0);
    assert maps[1..] == [maps[1]];
    OneData(maps[1]);
    var iovs := Sources(maps);
    assert iovs[0] == Iov(0, 4096) && iovs[1] == Iov(8192, 4096) && iovs[1..] == [iovs[1]];
    assert Mapped(mem, iovs[0]);
    assert 8192 !in mem && !Mapped(mem, iovs[1]);
    assert Reached(mem, iovs) == [iovs[0]];
    assert [iovs[0]][1..] == [];
  }

  /** Bytes written over a file from a position in it, which may extend it. */
  function Overlay(bytes: seq<Byte>, at: nat, data: seq<Byte>): (r: seq<Byte>)
    requires at <= |bytes|
    ensures |r| == if at + |data| <= |bytes| then |bytes| else at + |data|
  {
    bytes[..at] + data + (if at + |data| <= |bytes| then bytes[at + |data|..] else [])
  }

  lemma OverlayHas(bytes: seq<Byte>, at: nat, data: seq<Byte>)
    requires at <= |bytes|
    ensures HasBytes(Overlay(bytes, at, data), at, data)
  {
    var r := Overlay(bytes, at, data);
    assert r[at..at + |data|] == data;
  }

  /** Bytes elsewhere stay. */
  lemma OverlayKeeps(bytes: seq<Byte>, at: nat, data: seq<Byte>, offset: nat, part: seq<Byte>)
    requires at <= |bytes| && HasBytes(bytes, offset, part) && offset + |part| <= at
    ensures HasBytes(Overlay(bytes, at, data), offset, part)
  {
    var r := Overlay(bytes, at, data);
    assert r[offset..offset + |part|] == bytes[offset..offset + |part|];
  }

  lemma HasBytesConcat(bytes: seq<Byte>, offset: nat, a: seq<Byte>, b: seq<Byte>)
    ensures HasBytes(bytes, offset, a + b) <==> HasBytes(bytes, offset, a) && HasBytes(bytes, offset + |a|, b)
  {
    if offset + |a| + |b| <= |bytes| {
      assert bytes[offset..offset + |a + b|] == bytes[offset..offset + |a|] + bytes[offset + |a|..offset + |a| + |b|];
      if HasBytes(bytes, offset, a + b) {
        assert bytes[offset..offset + |a|] == (a + b)[..|a|] == a;
        assert bytes[offset + |a|..offset + |a| + |b|] == (a + b)[|a|..] == b;
      }
    }
  }

  /** The file from a position on. */
  ghost predicate Behind(bytes: seq<Byte>, pos: nat, base: seq<Byte>) {
    |base| <= |bytes| && forall k | pos <= k < |base| :: bytes[k] == base[k]
  }

  lemma OverlayBehind(bytes: seq<Byte>, at: nat, data: seq<Byte>, base: seq<Byte>)
    requires at <= |bytes| && Behind(bytes, at, base)
    ensures Behind(Overlay(bytes, at, data), at + |data|, base)
  {
  }

  /** The file with a new length. */
  function Resized(bytes: seq<Byte>, n: nat): (r: seq<Byte>)
    ensures |r| == n
  {
    if n <= |bytes| then bytes[..n] else bytes + seq(n - |bytes|, _ => 0)
  }

  class CoreWriter {
    var bytes: seq<Byte>
    var pos: nat

    /** Everything up to the position has been written by this object, and everything behind it is
        what was there. */
    ghost predicate Written(prefix: seq<Byte>, base: seq<Byte>)
      reads this
    {
      pos == |prefix| <= |bytes| && HasBytes(bytes, 0, prefix) && Behind(bytes, pos, base)
    }

    method SetLen(n: nat)
      requires pos == 0
      modifies this`bytes
      ensures bytes == Resized(old(bytes), n) && Written([], bytes)
    {
      bytes := Resized(bytes, n);
    }

    method WriteAll(data: seq<Byte>, ghost prefix: seq<Byte>, ghost base: seq<Byte>)
      requires Written(prefix, base)
      modifies this
      ensures Written(prefix + data, base)
      ensures |bytes| == if pos <= |old(bytes)| then |old(bytes)| else pos
    {
      OverlayKeeps(bytes, pos, data, 0, prefix);
      OverlayBehind(bytes, pos, data, base);
      OverlayHas(bytes, pos, data);
      HasBytesConcat(Overlay(bytes, pos, data), 0, prefix, data);
      hide HasBytes, Overlay, Behind;
      bytes := Overlay(bytes, pos, data);
      pos := pos + |data|;
    }

    method WriteNote(name: seq<Byte>, ntype: nat, payload: seq<Byte>, ghost prefix: seq<Byte>, ghost base: seq<Byte>)
      requires Written(prefix, base) && |name| == NAME_SIZE
      modifies this
      ensures Written(prefix + NoteBytes(name, ntype, payload), base)
      ensures |bytes| == if pos <= |old(bytes)| then |old(bytes)| else pos
    {
      NhdrSum();
      var hdr := Encode([5, |payload|, ntype], NhdrWidths());
      WriteAll(hdr, prefix, base);
      WriteAll(name, prefix + hdr, base);
      WriteAll(payload, prefix + hdr + name, base);
      assert prefix + hdr + name + payload == prefix + NoteBytes(name, ntype, payload);
    }

    method WriteVcpuNotes(v: Vcpu, ghost prefix: seq<Byte>, ghost base: seq<Byte>)
      requires Written(prefix, base)
      modifies this
      ensures Written(prefix + VcpuNotes(v), base)
      ensures |bytes| == if pos <= |old(bytes)| then |old(bytes)| else pos
    {
      hide NoteBytes, HasBytes;
      NameSizes();
      ghost var a, b := NoteBytes(CORE_NAME, NT_PRSTATUS, v.status), NoteBytes(CORE_NAME, NT_PRXREG, v.user);
      WriteNote(CORE_NAME, NT_PRSTATUS, v.status, prefix, base);
      WriteNote(CORE_NAME, NT_PRXREG, v.user, prefix + a, base);
      WriteNote(LINUX_NAME, NT_PRXFPREG, v.fpu, prefix + a + b, base);
      assert prefix + a + b + NoteBytes(LINUX_NAME, NT_PRXFPREG, v.fpu) == prefix + VcpuNotes(v);
    }

    method WriteNotes(info: seq<Byte>, vcpus: seq<Vcpu>, ghost prefix: seq<Byte>, ghost base: seq<Byte>)
      requires Written(prefix, base)
      modifies this
      ensures Written(prefix + AllNotes(info, vcpus), base)
      ensures |bytes| == if pos <= |old(bytes)| then |old(bytes)| else pos
    {
      hide NoteBytes, HasBytes, VcpuNotes;
      NameSizes();
      WriteNote(CORE_NAME, NT_PRPSINFO, info, prefix, base);
      ghost var done := prefix + NoteBytes(CORE_NAME, NT_PRPSINFO, info);
      assert done + AllVcpuNotes(vcpus[..0]) == done;
      for i := 0 to |vcpus|
        invariant Written(done + AllVcpuNotes(vcpus[..i]), base)
        invariant |bytes| == if pos <= |old(bytes)| then |old(bytes)| else pos
      {
        WriteVcpuNotes(vcpus[i], done + AllVcpuNotes(vcpus[..i]), base);
        assert vcpus[..i + 1][..i] == vcpus[..i];
        assert done + AllVcpuNotes(vcpus[..i]) + VcpuNotes(vcpus[i]) == done + AllVcpuNotes(vcpus[..i + 1]);
      }
      assert vcpus[..|vcpus|] == vcpus;
      assert done + AllVcpuNotes(vcpus) == prefix + AllNotes(info, vcpus);
    }

    /** Writes the program headers one after the other. */
    method WriteHeaders(hs: seq<Phdr>, ghost prefix: seq<Byte>, ghost base: seq<Byte>)
      requires Written(prefix, base)
      modifies this
      ensures Written(prefix + EncodeAll(hs), base)
      ensures |bytes| == if pos <= |old(bytes)| then |old(bytes)| else pos
    {
      hide HasBytes, EncodePhdr;
      assert prefix + EncodeAll(hs[..0]) == prefix;
      for i := 0 to |hs|
        invariant Written(prefix + EncodeAll(hs[..i]), base)
        invariant |bytes| == if pos <= |old(bytes)| then |old(bytes)| else pos
      {
        WriteAll(EncodePhdr(hs[i]), prefix + EncodeAll(hs[..i]), base);
        assert hs[..i + 1][..i] == hs[..i];
        assert prefix + EncodeAll(hs[..i]) + EncodePhdr(hs[i]) == prefix + EncodeAll(hs[..i + 1]);
      }
      assert hs[..|hs|] == hs;
    }

    /** Copies the memory of the hypervisor into the mapped end of the file, with one call, which takes
        a limited number of buffers; a short transfer goes unnoticed. */
    method DumpMappings(mem: Memory, coreSize: nat, offset: nat, maps: seq<Mapping>) returns (ok: bool)
      requires offset <= coreSize && coreSize - offset == DataSize(maps) && coreSize <= |bytes|
      modifies this`bytes
      ensures ok <==> |maps| <= IOV_MAX && Total(Reached(mem, Sources(maps))) > 0
      ensures !ok ==> bytes == old(bytes)
      ensures ok ==> AllMapped(mem, Reached(mem, Sources(maps)))
                     && bytes == Overlay(old(bytes), offset, Gather(mem, Reached(mem, Sources(maps))))
    {
      ReachedMapped(mem, Sources(maps));
      SourcesTotal(maps);
      if coreSize == offset {
        return false;
      }
      var iovs := Reached(mem, Sources(maps));
      if |maps| > IOV_MAX || Total(iovs) == 0 {
        return false;
      }
      bytes := Overlay(bytes, offset, Gather(mem, iovs));
      ok := true;
    }

    /** The headers of the memory segments, and the size of the file. */
    static method PlanSegments(maps: seq<Mapping>, sizes: Sizes, vcpus: nat) returns (hs: seq<Phdr>, coreSize: nat)
      ensures hs == Headers(maps, sizes, vcpus) && coreSize == DataOffset(maps, sizes, vcpus) + DataSize(maps)
    {
      hide PtNoteSize, MetadataSize;
      var offset := PageAlign(MetadataSize(maps) + PtNoteSize(sizes, vcpus));
      hs := [NoteHeader(MetadataSize(maps), PtNoteSize(sizes, vcpus))];
      coreSize := offset;
      ghost var note := hs[0];
      for i := 0 to |maps|
        invariant hs == [note] + Loads(maps, offset)[..i] && coreSize == offset + DataSize(maps[..i])
      {
        LoadsAt(maps, offset, i);
        hs := hs + [LoadHeader(maps[i], coreSize)];
        coreSize := coreSize + maps[i].size;
        assert maps[..i + 1][..i] == maps[..i] && maps[..i + 1][i..] == [maps[i]];
        DataSizeSplit(maps[..i + 1], i);
      }
      assert maps[..|maps|] == maps;
    }

    /** Writes the whole file, over whatever is there.  Headers and notes are written whether or not the
        memory can be read; a successful dump has few enough slots for its number of headers. */
    method WriteCoreFile(maps: seq<Mapping>, sizes: Sizes, info: seq<Byte>, vcpus: seq<Vcpu>, mem: Memory)
      returns (ok: bool)
      requires pos == 0 && Sized(info, vcpus, sizes)
      modifies this
      ensures ok <==> |maps| <= IOV_MAX && Total(Reached(mem, Sources(maps))) > 0
      ensures HasBytes(bytes, 0, Front(maps, sizes, info, vcpus))
      ensures ok ==>
                IsCore(bytes, maps, sizes, info, vcpus, Dumped(mem, maps, Stale(old(bytes), maps, sizes, |vcpus|)))
    {
      hide HasBytes, Headers, EncodeAll, EncodeEhdr, AllNotes, DataOffset, DataSize, Reached, Gather, Total, Sources,
           IsCore, MetadataSize, AllMapped, Overlay, Behind, Dumped, Stale, Resized;
      var hs, coreSize := PlanSegments(maps, sizes, |vcpus|);
      var offset := DataOffset(maps, sizes, |vcpus|);
      ghost var base := Resized(bytes, coreSize);
      SetLen(coreSize);
      var ehdr := EncodeEhdr(Phnum(maps));
      assert [] + ehdr == ehdr;
      WriteAll(ehdr, [], base);
      WriteHeaders(hs, ehdr, base);
      WriteNotes(info, vcpus, ehdr + EncodeAll(hs), base);
      ghost var before := bytes;
      assert Written(Front(maps, sizes, info, vcpus), base);
      ok := DumpMappings(mem, coreSize, offset, maps);
      if ok {
        FrontFits(maps, sizes, info, vcpus);
        FrontStays(before, maps, sizes, info, vcpus, Gather(mem, Reached(mem, Sources(maps))));
        StaleIs(old(bytes), maps, sizes, |vcpus|);
        DumpedOverlay(before, pos, base, offset, mem, maps);
        Assembled(before, maps, sizes, info, vcpus, Dumped(mem, maps, Stale(old(bytes), maps, sizes, |vcpus|)));
      }
    }
  }

  /** What the file has at the place of the memory before anything is read: its old content, or zeros
      where it was shorter. */
  function Stale(bytes: seq<Byte>, maps: seq<Mapping>, sizes: Sizes, vcpus: nat): (r: seq<Byte>)
    ensures |r| == DataSize(maps)
  {
    var offset := DataOffset(maps, sizes, vcpus);
    Resized(bytes, offset + DataSize(maps))[offset..]
  }

  /** The memory is written behind everything else. */
  lemma FrontStays(before: seq<Byte>, maps: seq<Mapping>, sizes: Sizes, info: seq<Byte>, vcpus: seq<Vcpu>,
                   data: seq<Byte>)
    requires HasBytes(before, 0, Front(maps, sizes, info, vcpus))
    requires |Front(maps, sizes, info, vcpus)| <= DataOffset(maps, sizes, |vcpus|) <= |before|
    ensures HasBytes(Overlay(before, DataOffset(maps, sizes, |vcpus|), data), 0, Front(maps, sizes, info, vcpus))
  {
    hide Front, DataOffset;
    OverlayKeeps(before, DataOffset(maps, sizes, |vcpus|), data, 0, Front(maps, sizes, info, vcpus));
  }

  lemma StaleIs(bytes: seq<Byte>, maps: seq<Mapping>, sizes: Sizes, vcpus: nat)
    ensures var offset := DataOffset(maps, sizes, vcpus);
            && |Resized(bytes, offset + DataSize(maps))| == offset + DataSize(maps)
            && Stale(bytes, maps, sizes, vcpus) == Resized(bytes, offset + DataSize(maps))[offset..]
  {
  }

  /** Writing what was read is writing the whole memory part. */
  lemma DumpedOverlay(before: seq<Byte>, pos: nat, base: seq<Byte>, offset: nat, mem: Memory, maps: seq<Mapping>)
    requires Behind(before, pos, base) && pos <= offset && |before| == |base| == offset + DataSize(maps)
    ensures AllMapped(mem, Reached(mem, Sources(maps)))
    ensures |Dumped(mem, maps, base[offset..])| == DataSize(maps)
    ensures Overlay(before, offset, Gather(mem, Reached(mem, Sources(maps))))
            == Overlay(before, offset, Dumped(mem, maps, base[offset..]))
  {
    ReachedMapped(mem, Sources(maps));
    SourcesTotal(maps);
    hide Gather, Reached, Sources, DataSize, Total;
    var read := Gather(mem, Reached(mem, Sources(maps)));
    GatherTotal(mem, Reached(mem, Sources(maps)));
    SameOverlay(before, base, offset, read);
  }

  lemma SameOverlay(before: seq<Byte>, base: seq<Byte>, offset: nat, read: seq<Byte>)
    requires offset + |read| <= |before| == |base| && Behind(before, offset, base)
    ensures Overlay(before, offset, read) == Overlay(before, offset, read + base[offset..][|read|..])
  {
  }

  /** All that is written before the memory. */
  function Front(maps: seq<Mapping>, sizes: Sizes, info: seq<Byte>, vcpus: seq<Vcpu>): seq<Byte> {
    EncodeEhdr(Phnum(maps)) + EncodeAll(Headers(maps, sizes, |vcpus|)) + AllNotes(info, vcpus)
  }

  lemma {:induction false} FrontFits(maps: seq<Mapping>, sizes: Sizes, info: seq<Byte>, vcpus: seq<Vcpu>)
    requires Sized(info, vcpus, sizes) && |maps| + 1 < HALF_LIMIT
    ensures |EncodeEhdr(Phnum(maps))| == EHDR_SIZE
    ensures |EncodeAll(Headers(maps, sizes, |vcpus|))| == MetadataSize(maps) - EHDR_SIZE
    ensures |AllNotes(info, vcpus)| == PtNoteSize(sizes, |vcpus|)
    ensures |Front(maps, sizes, info, vcpus)| <= DataOffset(maps, sizes, |vcpus|)
  {
    hide EncodeEhdr, EncodeAll, AllNotes, Headers, PtNoteSize, DataOffset, ReadEhdr, Sized;
    NotesFill(info, vcpus, sizes);
    EncodeAllLength(Headers(maps, sizes, |vcpus|));
    HeaderCount(maps, sizes, |vcpus|);
    EhdrReadsBack(Phnum(maps));
    DataOffsetAligned(maps, sizes, |vcpus|);
  }

  predicate HasRoom(before: seq<Byte>, maps: seq<Mapping>, sizes: Sizes, vcpus: nat, data: seq<Byte>) {
    |data| == DataSize(maps) && |before| == DataOffset(maps, sizes, vcpus) + DataSize(maps)
  }

  /** The parts that are written one after the other make up the file. */
  lemma {:induction false} Assembled(before: seq<Byte>, maps: seq<Mapping>, sizes: Sizes, info: seq<Byte>,
                                     vcpus: seq<Vcpu>, data: seq<Byte>)
    requires Sized(info, vcpus, sizes) && |maps| + 1 < HALF_LIMIT && HasRoom(before, maps, sizes, |vcpus|, data)
    requires HasBytes(before, 0, Front(maps, sizes, info, vcpus))
    ensures IsCore(Overlay(before, DataOffset(maps, sizes, |vcpus|), data), maps, sizes, info, vcpus, data)
  {
    hide EncodeEhdr, EncodeAll, AllNotes, Headers, DataOffset, DataSize, HasBytes, HasHeaders, MetadataSize, PtNoteSize,
         Overlay, Sized;
    FrontFits(maps, sizes, info, vcpus);
    var ehdr, notes := EncodeEhdr(Phnum(maps)), AllNotes(info, vcpus);
    var headers := EncodeAll(Headers(maps, sizes, |vcpus|));
    var offset := DataOffset(maps, sizes, |vcpus|);
    var after := Overlay(before, offset, data);
    AssembledParts(before, ehdr, headers, notes, offset, data);
    HeadersFromBytes(after, Headers(maps, sizes, |vcpus|));
  }

  lemma AssembledParts(before: seq<Byte>, a: seq<Byte>, b: seq<Byte>, c: seq<Byte>, offset: nat, data: seq<Byte>)
    requires HasBytes(before, 0, a + b + c) && |a + b + c| <= offset && offset + |data| == |before|
    ensures var after := Overlay(before, offset, data);
            && HasBytes(after, 0, a) && HasBytes(after, |a|, b) && HasBytes(after, |a| + |b|, c)
            && HasBytes(after, offset, data) && |after| == offset + |data|
  {
    HasBytesConcat(before, 0, a + b, c);
    HasBytesConcat(before, 0, a, b);
    OverlayKeeps(before, offset, data, 0, a);
    OverlayKeeps(before, offset, data, |a|, b);
    OverlayKeeps(before, offset, data, |a| + |b|, c);
    OverlayHas(before, offset, data);
    hide HasBytes;
  }

  lemma HeadersFromBytes(file: seq<Byte>, hs: seq<Phdr>)
    requires HasBytes(file, EHDR_SIZE, EncodeAll(hs))
    ensures HasHeaders(file, hs)
  {
    EncodeAllLength(hs);
  }

  lemma {:induction false} SourcesTotal(maps: seq<Mapping>)
    ensures Total(Sources(maps)) == DataSize(maps)
  {
    if maps != [] {
      SourcesTotal(maps[1..]);
      assert Sources(maps)[1..] == Sources(maps[1..]);
    }
  }
}
