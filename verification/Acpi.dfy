/** src/acpi/rsdp.c and src/acpi/rsdt.c: finding the root pointer and the description tables in physical memory. */
module Acpi {
  import opened Words

  /** Readable physical memory. Tables are taken not to wrap around the end of the address space. */
  type Memory = nat -> u8

  const HEADER_BYTES := 36
  const RSDP_BYTES := 20
  const RSDP_ALIGN := 16
  const EBDA_BASE_ADDRESS := 0x040e
  const EBDA_SIZE := 1024
  const BIOS_MAIN_START := 0x000e_0000
  const BIOS_MAIN_END := 0x000f_ffff

  /** The characters "RSD PTR ". */
  const RSDP_SIGNATURE: seq<u8> := [82, 83, 68, 32, 80, 84, 82, 32]

  function Le16(mem: Memory, a: nat): u16 {
    mem(a) + 0x100 * mem(a + 1)
  }

  function Le32(mem: Memory, a: nat): u32 {
    Le16(mem, a) + 0x1_0000 * Le16(mem, a + 2)
  }

  function Le64(mem: Memory, a: nat): nat {
    Le32(mem, a) + WORD * Le32(mem, a + 4)
  }

  /** A byte as the signed `char` of this target. */
  function SignedChar(b: u8): int {
    if b < 0x80 then b else b - 0x100
  }

  // ---------- Checksums ----------

  /** The sum of `n` bytes, as unsigned numbers. */
  function ByteSum(mem: Memory, a: nat, n: nat): nat {
    if n == 0 then 0 else ByteSum(mem, a, n - 1) + mem(a + n - 1)
  }

  predicate SumsToZero(mem: Memory, a: nat, n: nat) {
    ByteSum(mem, a, n) % 0x100 == 0
  }

  /** In an 8-bit sum it does not matter whether bytes are signed. */
  lemma AddSigned(s: nat, b: u8)
    ensures (s % 0x100 + SignedChar(b)) % 0x100 == (s + b) % 0x100
  {
  }

  /** The checksum loop shared by tables and root pointer: an 8-bit accumulator of signed characters. */
  method Checksum(mem: Memory, a: nat, n: u32) returns (sum: u8)
    ensures sum == ByteSum(mem, a, n) % 0x100
  {
    sum := 0;
    var i: u32 := 0;
    while i < n
      invariant i <= n && sum == ByteSum(mem, a, i) % 0x100
    {
      AddSigned(ByteSum(mem, a, i), mem(a + i));
      sum := (sum + SignedChar(mem(a + i))) % 0x100;
      i := i + 1;
    }
  }

  function TableLength(mem: Memory, header: nat): u32 {
    Le32(mem, header + 4)
  }

  predicate IsValidTable(mem: Memory, header: nat) {
    SumsToZero(mem, header, TableLength(mem, header))
  }

  /** `validate_checksum`. */
  method ValidateChecksum(mem: Memory, header: nat) returns (ok: bool)
    ensures ok <==> IsValidTable(mem, header)
  {
    var sum := Checksum(mem, header, TableLength(mem, header));
    ok := sum == 0;
  }

  /** The two memories differ at one address at most. */
  ghost predicate SameExcept(m: Memory, m': Memory, at: nat) {
    forall x: nat :: x != at ==> m'(x) == m(x)
  }

  lemma {:induction false} SumChanges(m: Memory, m': Memory, a: nat, n: nat, at: nat)
    requires SameExcept(m, m', at)
    ensures ByteSum(m', a, n) == ByteSum(m, a, n) + if a <= at < a + n then m'(at) - m(at) else 0
  {
    if n != 0 {
      SumChanges(m, m', a, n - 1, at);
    }
  }

  /** Changing any one byte of a valid table, other than in its length field, is always noticed. */
  lemma CorruptionIsNoticed(m: Memory, m': Memory, header: nat, at: nat)
    requires IsValidTable(m, header) && SameExcept(m, m', at) && m'(at) != m(at)
    requires header <= at < header + TableLength(m, header) && !(header + 4 <= at < header + 8)
    ensures !IsValidTable(m', header)
  {
    SumChanges(m, m', header, TableLength(m, header), at);
    var s, d := ByteSum(m, header, TableLength(m, header)), m'(at) - m(at);
    assert -0x100 < d < 0x100 && d != 0;
    assert TableLength(m', header) == TableLength(m, header);
  }

  function Stored(mem: Memory, at: nat, b: u8): Memory {
    x => if x == at then b else mem(x)
  }

  /** Whatever a table contains, exactly one value of its checksum byte makes it valid. */
  lemma OneChecksumByte(mem: Memory, header: nat, b: u8)
    requires TableLength(mem, header) > 9
    ensures IsValidTable(Stored(mem, header + 9, b), header)
      <==> b == (mem(header + 9) - ByteSum(mem, header, TableLength(mem, header))) % 0x100
  {
    var m' := Stored(mem, header + 9, b);
    SumChanges(mem, m', header, TableLength(mem, header), header + 9);
    assert TableLength(m', header) == TableLength(mem, header);
  }

  // ---------- What memory holds ----------

  /** A number in memory, lowest byte first, written out. */
  predicate Holds4(mem: Memory, a: nat, n: nat) {
    n == mem(a) + 0x100 * mem(a + 1) + 0x1_0000 * mem(a + 2) + 0x100_0000 * mem(a + 3)
  }

  predicate Spells(mem: Memory, a: nat, text: seq<u8>) {
    forall i :: 0 <= i < |text| ==> mem(a + i) == text[i]
  }

  lemma NumberHeld(mem: Memory, a: nat)
    ensures forall n: nat :: Holds4(mem, a, n) <==> n == Le32(mem, a)
  {
  }

  /** A table: four bytes, a length after them, and that many bytes in all that sum to 0. */
  ghost predicate SumsToNull(mem: Memory, a: nat) {
    exists n: nat :: Holds4(mem, a + 4, n) && ByteSum(mem, a, n) % 0x100 == 0
  }

  lemma ValidByBytes(mem: Memory, a: nat)
    ensures IsValidTable(mem, a) <==> SumsToNull(mem, a)
  {
    hide ByteSum, Holds4, Le32;
    NumberHeld(mem, a + 4);
  }

  /** One whose first four bytes are a signature. */
  ghost predicate TableAt(mem: Memory, a: nat, signature: seq<u8>) {
    Spells(mem, a, signature) && SumsToNull(mem, a)
  }

  lemma IsTableByBytes(mem: Memory, a: nat, signature: seq<u8>)
    ensures IsTable(mem, a, signature) <==> TableAt(mem, a, signature)
  {
    hide IsValidTable, SumsToNull;
    ValidByBytes(mem, a);
  }

  /** A root table of the first kind: a header of 36 bytes, then the entries, 4 bytes each. */
  ghost predicate Laid4(mem: Memory, r: nat, entries: seq<nat>) {
    && Holds4(mem, r + 4, 36 + 4 * |entries|)
    && forall i :: 0 <= i < |entries| ==> Holds4(mem, r + 36 + 4 * i, entries[i])
  }

  /** The extended kind: 8 bytes each, of which this 32-bit target uses the lower four. */
  ghost predicate Laid8(mem: Memory, r: nat, entries: seq<nat>) {
    && Holds4(mem, r + 4, 36 + 8 * |entries|)
    && forall i :: 0 <= i < |entries| ==> Holds4(mem, r + 36 + 8 * i, entries[i])
  }

  /** The first of the entries that is a table with the signature, or null. */
  ghost predicate IsFirstOf(mem: Memory, entries: seq<nat>, signature: seq<u8>, header: nat) {
    || (exists i :: 0 <= i < |entries| && header == entries[i] && TableAt(mem, entries[i], signature)
          && forall j :: 0 <= j < i ==> !TableAt(mem, entries[j], signature))
    || (header == 0 && NoneOf(mem, entries, signature))
  }

  ghost predicate NoneOf(mem: Memory, entries: seq<nat>, signature: seq<u8>) {
    forall i :: 0 <= i < |entries| ==> !TableAt(mem, entries[i], signature)
  }

  // ---------- Tables ----------

  predicate HasSignature(mem: Memory, a: nat, signature: seq<u8>) {
    forall i :: 0 <= i < |signature| ==> mem(a + i) == signature[i]
  }

  /** `validate_signature`. */
  method ValidateSignature(mem: Memory, header: nat, signature: seq<u8>) returns (ok: bool)
    requires |signature| == 4
    ensures ok <==> HasSignature(mem, header, signature)
  {
    for i := 0 to 4
      invariant forall k :: 0 <= k < i ==> mem(header + k) == signature[k]
    {
      if mem(header + i) != signature[i] {
        return false;
      }
    }
    ok := true;
  }

  predicate IsTable(mem: Memory, header: nat, signature: seq<u8>) {
    IsValidTable(mem, header) && HasSignature(mem, header, signature)
  }

  /** The characters "FACP" and "APIC". */
  const FADT_SIGNATURE: seq<u8> := [70, 65, 67, 80]
  const MADT_SIGNATURE: seq<u8> := [65, 80, 73, 67]

  lemma Signatures()
    ensures FADT_SIGNATURE == Chars("FACP") && MADT_SIGNATURE == Chars("APIC") && RSDP_SIGNATURE == Chars("RSD PTR ")
  {
  }

  /** How many entries the driver takes a root table of this length to have, whichever kind it is. */
  function EntryCount(length: u32): u32 {
    ToU32(length - HEADER_BYTES) / 4
  }

  /**
   * With 4-byte entries the scan stays inside the root table exactly when the table has room for
   * its own header; with the 8-byte entries of the extended table, only when it scans nothing.
   */
  lemma ScanInBounds(length: u32)
    ensures HEADER_BYTES + 4 * EntryCount(length) <= length <==> length >= HEADER_BYTES
    ensures HEADER_BYTES + 8 * EntryCount(length) <= length <==> HEADER_BYTES <= length < HEADER_BYTES + 4
  {
  }

  /** An extended table with one entry is searched 8 bytes too far. */
  lemma OneEntryTooFar()
    ensures HEADER_BYTES + 8 * EntryCount(44) == 44 + 8
  {
  }

  /** The statics of the ACPI sources; 0 is the null pointer. */
  class Tables {
    const mem: Memory
    var rsdt: u32
    var xsdt: u32
    var rsdp: nat
    var xsdp: nat
    var fadt: u32
    var madt: u32

    constructor (mem: Memory)
      ensures this.mem == mem && rsdt == 0 && xsdt == 0 && rsdp == 0 && xsdp == 0 && fadt == 0 && madt == 0
    {
      this.mem := mem;
      rsdt, xsdt, rsdp, xsdp, fadt, madt := 0, 0, 0, 0, 0, 0;
    }

    /** `get_num_tables`. */
    function NumTables(): u32
      reads this`rsdt, this`xsdt
    {
      if rsdt != 0 then EntryCount(TableLength(mem, rsdt))
      else if xsdt != 0 then EntryCount(TableLength(mem, xsdt))
      else 0
    }

    /** `get_table`. */
    function Table(i: nat): u32
      reads this`rsdt, this`xsdt
    {
      if rsdt != 0 then Le32(mem, rsdt + HEADER_BYTES + 4 * i)
      else if xsdt != 0 then ToU32(Le64(mem, xsdt + HEADER_BYTES + 8 * i))
      else 0
    }

    /** `i` is the first entry that is a valid table with the signature. */
    ghost predicate IsFirstTable(i: nat, signature: seq<u8>)
      reads this`rsdt, this`xsdt
    {
      && i < NumTables() && IsTable(mem, Table(i), signature)
      && forall j: nat :: j < i ==> !IsTable(mem, Table(j), signature)
    }

    /** The answer to a search: the first valid table with the signature, or null if there is none. */
    ghost predicate IsSdt(signature: seq<u8>, header: u32)
      reads this`rsdt, this`xsdt
    {
      || (exists i: nat :: IsFirstTable(i, signature) && header == Table(i))
      || (header == 0 && forall i: nat :: i < NumTables() ==> !IsTable(mem, Table(i), signature))
    }

    /** `get_sdt`: the first valid table with the signature, or null if there is none. */
    method GetSdt(signature: seq<u8>) returns (header: u32)
      requires |signature| == 4
      ensures (exists i: nat :: i < NumTables() && IsTable(mem, Table(i), signature))
        ==> exists i: nat :: IsFirstTable(i, signature) && header == Table(i)
      ensures (forall i: nat :: i < NumTables() ==> !IsTable(mem, Table(i), signature)) ==> header == 0
      ensures IsSdt(signature, header)
      ensures rsdt == 0 && xsdt == 0 ==> header == 0
      ensures forall entries :: rsdt != 0 && Laid4(mem, rsdt, entries) ==> IsFirstOf(mem, entries, signature, header)
    {
      SdtOfEntries(signature);
      NoRootNoTables();
      hide IsValidTable, HasSignature, Table, NumTables, Laid4, IsFirstOf, TableLength;
      var n := NumTables();
      for i := 0 to n
        invariant forall j: nat :: j < i ==> !IsTable(mem, Table(j), signature)
      {
        header := Table(i);
        var valid := ValidateChecksum(mem, header);
        if valid {
          var matches := ValidateSignature(mem, header, signature);
          if matches {
            assert IsFirstTable(i, signature);
            return;
          }
        }
      }
      header := 0;
    }

    /** The entries of a root table are what the bytes after its header say. */
    lemma EntriesAsLaid(entries: seq<nat>)
      requires rsdt != 0 && Laid4(mem, rsdt, entries)
      ensures NumTables() == |entries| && forall i :: 0 <= i < |entries| ==> Table(i) == entries[i]
    {
      hide Le32, Holds4;
      NumberHeld(mem, rsdt + 4);
      forall i | 0 <= i < |entries|
        ensures Table(i) == entries[i]
      {
        NumberHeld(mem, rsdt + 36 + 4 * i);
      }
    }

    lemma NoRootNoTables()
      ensures rsdt == 0 && xsdt == 0 ==> NumTables() == 0
    {
    }

    lemma SdtOfEntries(signature: seq<u8>)
      ensures forall header: u32, entries ::
        rsdt != 0 && Laid4(mem, rsdt, entries) && IsSdt(signature, header) ==>
          IsFirstOf(mem, entries, signature, header)
    {
      hide Laid4, Table, NumTables, IsTable, TableAt;
      forall header: u32, entries | rsdt != 0 && Laid4(mem, rsdt, entries) && IsSdt(signature, header)
        ensures IsFirstOf(mem, entries, signature, header)
      {
        EntriesAsLaid(entries);
        forall i | 0 <= i < |entries|
          ensures IsTable(mem, Table(i), signature) <==> TableAt(mem, entries[i], signature)
        {
          IsTableByBytes(mem, Table(i), signature);
        }
      }
    }

    /** The same for the extended root table, of which twice as many are looked at. */
    lemma ExtendedAsLaid(entries: seq<nat>)
      requires rsdt == 0 && xsdt != 0 && Laid8(mem, xsdt, entries)
      ensures NumTables() == 2 * |entries| && forall i :: 0 <= i < |entries| ==> Table(i) == entries[i]
      ensures TableLength(mem, xsdt) >= 36 && RealEntries() == |entries|
    {
      hide Le32, Holds4;
      NumberHeld(mem, xsdt + 4);
      forall i | 0 <= i < |entries|
        ensures Table(i) == entries[i]
      {
        NumberHeld(mem, xsdt + 36 + 8 * i);
      }
    }

    /** If one of its own entries is a table with the signature, the first of them is found. */
    lemma ExtendedFirst(entries: seq<nat>, signature: seq<u8>, header: u32)
      requires rsdt == 0 && xsdt != 0 && Laid8(mem, xsdt, entries) && IsSdt(signature, header)
      ensures !NoneOf(mem, entries, signature) ==> IsFirstOf(mem, entries, signature, header)
    {
      hide Laid8, Table, NumTables, IsTable, TableAt;
      ExtendedAsLaid(entries);
      forall i | 0 <= i < |entries|
        ensures IsTable(mem, Table(i), signature) <==> TableAt(mem, entries[i], signature)
      {
        IsTableByBytes(mem, Table(i), signature);
      }
    }

    /** Null means that no entry matches, exactly unless the first match is an entry that is null itself. */
    lemma NullTableMeansNone(signature: seq<u8>, header: u32)
      requires IsSdt(signature, header)
      ensures (header == 0 <==> forall i: nat :: i < NumTables() ==> !IsTable(mem, Table(i), signature))
        <==> !exists i: nat :: IsFirstTable(i, signature) && Table(i) == 0
    {
    }

    /** The entries that the extended root table has room for. */
    function RealEntries(): nat
      reads this`rsdt, this`xsdt
      requires xsdt != 0 && TableLength(mem, xsdt) >= HEADER_BYTES
    {
      (TableLength(mem, xsdt) - HEADER_BYTES) / 8
    }

    /** The answer that a search of those entries alone would give. */
    ghost predicate IsRealSdt(signature: seq<u8>, header: u32)
      reads this`rsdt, this`xsdt
      requires xsdt != 0 && TableLength(mem, xsdt) >= HEADER_BYTES
    {
      || (exists i: nat :: i < RealEntries() && IsFirstTable(i, signature) && header == Table(i))
      || (header == 0 && forall i: nat :: i < RealEntries() ==> !IsTable(mem, Table(i), signature))
    }

    /**
     * Of the extended root table, twice as many entries are searched as it has. The answer is still
     * the right one exactly if a real entry matches, or nothing behind the table passes for one
     * (or what does is null).
     */
    lemma ExtendedSearchIsRight(signature: seq<u8>, header: u32)
      requires rsdt == 0 && xsdt != 0 && TableLength(mem, xsdt) >= HEADER_BYTES
      requires IsSdt(signature, header)
      ensures 2 * RealEntries() <= NumTables() <= 2 * RealEntries() + 1
      ensures IsRealSdt(signature, header) <==>
        || (exists i: nat :: i < RealEntries() && IsTable(mem, Table(i), signature))
        || !exists i: nat :: IsFirstTable(i, signature) && Table(i) != 0
    {
      EntriesDoubled();
      hide IsTable, Table, NumTables, RealEntries;
    }

    lemma EntriesDoubled()
      requires rsdt == 0 && xsdt != 0 && TableLength(mem, xsdt) >= HEADER_BYTES
      ensures 2 * RealEntries() <= NumTables() <= 2 * RealEntries() + 1
    {
      hide TableLength;
    }

    /** `fadt_init` and `madt_init`. */
    method FadtInit()
      modifies this`fadt
      ensures IsSdt(FADT_SIGNATURE, fadt)
      ensures forall entries :: rsdt != 0 && Laid4(mem, rsdt, entries) ==> IsFirstOf(mem, entries, Chars("FACP"), fadt)
    {
      Signatures();
      hide Laid4, IsFirstOf;
      fadt := GetSdt(FADT_SIGNATURE);
    }

    method MadtInit()
      modifies this`madt
      ensures IsSdt(MADT_SIGNATURE, madt)
      ensures forall entries :: rsdt != 0 && Laid4(mem, rsdt, entries) ==> IsFirstOf(mem, entries, Chars("APIC"), madt)
    {
      Signatures();
      hide Laid4, IsFirstOf;
      madt := GetSdt(MADT_SIGNATURE);
    }

    predicate RootsValid()
      reads this`rsdt, this`xsdt
    {
      (rsdt != 0 ==> IsValidTable(mem, rsdt)) && (xsdt != 0 ==> IsValidTable(mem, xsdt))
    }

    /**
     * `rsdt_init`, with `fadt_init` and `madt_init`. A bad checksum is reported and nothing is looked
     * up, but the pointers stay.
     */
    method RsdtInit(r: u32, x: u32) returns (ok: bool)
      modifies this`rsdt, this`xsdt, this`fadt, this`madt
      ensures rsdt == r && xsdt == x && (ok <==> RootsValid())
      ensures ok <==> (r != 0 ==> SumsToNull(mem, r)) && (x != 0 ==> SumsToNull(mem, x))
      ensures ok ==> IsSdt(FADT_SIGNATURE, fadt) && IsSdt(MADT_SIGNATURE, madt)
      ensures !ok ==> fadt == old(fadt) && madt == old(madt)
    {
      ValidByBytes(mem, r);
      ValidByBytes(mem, x);
      hide IsSdt, IsValidTable, SumsToNull;
      rsdt, xsdt := r, x;
      if rsdt != 0 {
        ok := ValidateChecksum(mem, rsdt);
        if !ok {
          return;
        }
      }
      if xsdt != 0 {
        ok := ValidateChecksum(mem, xsdt);
        if !ok {
          return;
        }
      }
      ok := true;
      FadtInit();
      MadtInit();
    }

    /** `init_rsdp`: the root table is the one the root pointer names, the extended one from revision 2. */
    method InitRsdp() returns (found: bool, ok: bool)
      modifies this
      ensures found <==> exists sdp: nat :: sdp != 0 && IsLocated(mem, sdp)
      ensures !found ==> unchanged(this)
      ensures found ==> exists sdp: nat ::
        && sdp != 0 && IsLocated(mem, sdp)
        && NamesRoots(mem, sdp, rsdt, xsdt)
        && (rsdp, xsdp) == if mem(sdp + 15) == 2 then (0, sdp) else (sdp, 0)
      ensures found ==> (ok <==> RootsValid())
      ensures ok ==> found && IsSdt(FADT_SIGNATURE, fadt) && IsSdt(MADT_SIGNATURE, madt)
    {
      hide IsSdt, IsLocated, IsValidTable, RootLocated, Holds4, Le32, Le64;
      ok := false;
      var sdp := LocateSdp(mem);
      NumberHeld(mem, sdp + 16);
      NumberHeld(mem, sdp + 24);
      LowerHalf(mem, sdp + 24);
      found := sdp != 0;
      if !found {
        forall s: nat | IsLocated(mem, s)
          ensures s == 0
        {
          LocatedUnique(mem, s, sdp);
        }
        return;
      }
      if mem(sdp + 15) == 2 {
        rsdp, xsdp := 0, sdp;
        ok := RsdtInit(0, ToU32(Le64(mem, sdp + 24)));
      } else {
        rsdp, xsdp := sdp, 0;
        ok := RsdtInit(Le32(mem, sdp + 16), 0);
      }
    }
  }

  // ---------- The root pointer ----------

  /** The root table and the extended root table that a root pointer names; one of them is null. */
  ghost predicate NamesRoots(mem: Memory, sdp: nat, rsdt: nat, xsdt: nat) {
    if mem(sdp + 15) == 2 then rsdt == 0 && Holds4(mem, sdp + 24, xsdt)
    else Holds4(mem, sdp + 16, rsdt) && xsdt == 0
  }

  predicate IsRsdp(mem: Memory, a: nat) {
    HasSignature(mem, a, RSDP_SIGNATURE) && SumsToZero(mem, a, RSDP_BYTES)
  }

  /** The signature read as one little-endian 64-bit number. */
  const SIGNATURE_NUMBER: nat := 0x2052_5450_2044_5352

  /** Comparing the eight signature bytes as one number is comparing them all. */
  lemma SignatureAsNumber(mem: Memory, a: nat)
    ensures Le64(mem, a) == SIGNATURE_NUMBER <==> HasSignature(mem, a, RSDP_SIGNATURE)
  {
    HalvesEqual(Le32(mem, a), Le32(mem, a + 4), 0x2044_5352, 0x2052_5450);
    BytesEqual(mem, a, 82, 83, 68, 32);
    BytesEqual(mem, a + 4, 80, 84, 82, 32);
    if HasSignature(mem, a, RSDP_SIGNATURE) {
      assert mem(a + 0) == RSDP_SIGNATURE[0] && mem(a + 1) == RSDP_SIGNATURE[1];
      assert mem(a + 2) == RSDP_SIGNATURE[2] && mem(a + 3) == RSDP_SIGNATURE[3];
      assert mem(a + 4) == RSDP_SIGNATURE[4] && mem(a + 5) == RSDP_SIGNATURE[5];
      assert mem(a + 6) == RSDP_SIGNATURE[6] && mem(a + 7) == RSDP_SIGNATURE[7];
    }
  }

  lemma HalvesEqual(a: u32, b: u32, c: u32, d: u32)
    ensures a + WORD * b == c + WORD * d <==> a == c && b == d
  {
  }

  lemma BytesEqual(mem: Memory, a: nat, b0: u8, b1: u8, b2: u8, b3: u8)
    ensures Le32(mem, a) == b0 + 0x100 * b1 + 0x1_0000 * b2 + 0x100_0000 * b3
      <==> mem(a) == b0 && mem(a + 1) == b1 && mem(a + 2) == b2 && mem(a + 3) == b3
  {
    DigitsEqual(mem(a), mem(a + 1), mem(a + 2), mem(a + 3), b0, b1, b2, b3);
  }

  lemma DigitsEqual(a0: u8, a1: u8, a2: u8, a3: u8, b0: u8, b1: u8, b2: u8, b3: u8)
    ensures a0 + 0x100 * a1 + 0x1_0000 * a2 + 0x100_0000 * a3 == b0 + 0x100 * b1 + 0x1_0000 * b2 + 0x100_0000 * b3
      <==> a0 == b0 && a1 == b1 && a2 == b2 && a3 == b3
  {
  }

  /** `validate_rsdp`. */
  method ValidateRsdp(mem: Memory, a: nat) returns (ok: bool)
    ensures ok <==> IsRsdp(mem, a)
  {
    SignatureAsNumber(mem, a);
    if Le64(mem, a) != SIGNATURE_NUMBER {
      return false;
    }
    var sum := Checksum(mem, a, RSDP_BYTES);
    ok := sum == 0;
  }

  /** The `k`-th place that a search of [start, end) looks at. */
  ghost predicate IsHit(mem: Memory, start: nat, end: nat, k: nat) {
    start + RSDP_ALIGN * k < end && IsRsdp(mem, start + RSDP_ALIGN * k)
  }

  /** The lowest place with a root pointer, or 0. */
  ghost predicate IsFound(mem: Memory, start: nat, end: nat, r: nat) {
    || (exists k: nat :: IsHit(mem, start, end, k) && r == start + RSDP_ALIGN * k
          && forall j: nat :: j < k ==> !IsHit(mem, start, end, j))
    || (r == 0 && forall k: nat :: !IsHit(mem, start, end, k))
  }

  lemma FoundIsRsdp(mem: Memory, start: nat, end: nat, r: nat)
    requires IsFound(mem, start, end, r) && r != 0
    ensures IsRsdp(mem, r)
  {
  }

  /** `sdp_search`. */
  method SdpSearch(mem: Memory, start: nat, end: nat) returns (r: nat)
    ensures IsFound(mem, start, end, r)
  {
    var i := start;
    ghost var k: nat := 0;
    while i < end
      invariant i == start + RSDP_ALIGN * k
      invariant forall j: nat :: j < k ==> !IsHit(mem, start, end, j)
      decreases end - i
    {
      var ok := ValidateRsdp(mem, i);
      if ok {
        assert IsHit(mem, start, end, k);
        return i;
      }
      assert !IsHit(mem, start, end, k);
      i := i + RSDP_ALIGN;
      k := k + 1;
    }
    r := 0;
  }

  function EbdaStart(mem: Memory): nat {
    Le16(mem, EBDA_BASE_ADDRESS) * 16
  }

  /** The root pointer: the lowest in the extended BIOS data area, else the lowest in the BIOS area, else 0. */
  ghost predicate IsLocated(mem: Memory, r: nat) {
    var ebda := EbdaStart(mem);
    || (r != 0 && IsFound(mem, ebda, ebda + EBDA_SIZE, r))
    || (IsFound(mem, ebda, ebda + EBDA_SIZE, 0) && IsFound(mem, BIOS_MAIN_START, BIOS_MAIN_END, r))
  }

  // ---------- The search, byte for byte ----------

  ghost predicate RootAt(mem: Memory, a: nat) {
    Spells(mem, a, Chars("RSD PTR ")) && ByteSum(mem, a, 20) % 0x100 == 0
  }

  /** `r` is the lowest root pointer among every sixteenth address from `lo` to below `hi`. */
  ghost predicate FirstRoot(mem: Memory, lo: nat, hi: nat, r: nat) {
    && lo <= r < hi && (r - lo) % 16 == 0 && RootAt(mem, r)
    && forall q: nat :: lo <= q < r && (q - lo) % 16 == 0 ==> !RootAt(mem, q)
  }

  ghost predicate NoRoot(mem: Memory, lo: nat, hi: nat) {
    forall q: nat :: lo <= q < hi && (q - lo) % 16 == 0 ==> !RootAt(mem, q)
  }

  /**
   * In the kilobyte that the word at 0x40e, times 16, points to, unless it is at address 0; else
   * from 0xe0000 to below 0xfffff; else nowhere.
   */
  ghost predicate RootLocated(mem: Memory, r: nat) {
    var e := 16 * (mem(0x40e) + 0x100 * mem(0x40f));
    if r != 0 && FirstRoot(mem, e, e + 1024, r) then true
    else
      && (NoRoot(mem, e, e + 1024) || FirstRoot(mem, e, e + 1024, 0))
      && (FirstRoot(mem, 0xe0000, 0xfffff, r) || (r == 0 && NoRoot(mem, 0xe0000, 0xfffff)))
  }

  lemma HitByBytes(mem: Memory, lo: nat, hi: nat, k: nat)
    ensures IsHit(mem, lo, hi, k) <==> lo + 16 * k < hi && RootAt(mem, lo + 16 * k)
  {
    hide ByteSum;
    Signatures();
  }

  /** The steps of the search are the addresses at distances that are multiples of 16. */
  lemma StepOf(lo: nat, q: nat)
    requires lo <= q
    ensures (q - lo) % 16 == 0 <==> q == lo + 16 * ((q - lo) / 16)
  {
  }

  lemma StepsAreMultiples(lo: nat, k: nat)
    ensures (lo + 16 * k - lo) % 16 == 0
  {
  }

  lemma NoRootByBytes(mem: Memory, lo: nat, hi: nat)
    ensures (forall k: nat :: !IsHit(mem, lo, hi, k)) <==> NoRoot(mem, lo, hi)
  {
    hide IsHit, RootAt;
    if NoRoot(mem, lo, hi) {
      forall k: nat
        ensures !IsHit(mem, lo, hi, k)
      {
        HitByBytes(mem, lo, hi, k);
        StepsAreMultiples(lo, k);
      }
    }
    if forall k: nat :: !IsHit(mem, lo, hi, k) {
      forall q: nat | lo <= q < hi && (q - lo) % 16 == 0
        ensures !RootAt(mem, q)
      {
        StepOf(lo, q);
        HitByBytes(mem, lo, hi, (q - lo) / 16);
      }
    }
  }

  lemma FirstRootByBytes(mem: Memory, lo: nat, hi: nat, k: nat)
    ensures IsHit(mem, lo, hi, k) && (forall j: nat :: j < k ==> !IsHit(mem, lo, hi, j))
      <==> FirstRoot(mem, lo, hi, lo + 16 * k)
  {
    hide IsHit, RootAt;
    HitByBytes(mem, lo, hi, k);
    StepsAreMultiples(lo, k);
    if IsHit(mem, lo, hi, k) && forall j: nat :: j < k ==> !IsHit(mem, lo, hi, j) {
      forall q: nat | lo <= q < lo + 16 * k && (q - lo) % 16 == 0
        ensures !RootAt(mem, q)
      {
        StepOf(lo, q);
        HitByBytes(mem, lo, hi, (q - lo) / 16);
      }
    }
    if FirstRoot(mem, lo, hi, lo + 16 * k) {
      forall j: nat | j < k
        ensures !IsHit(mem, lo, hi, j)
      {
        HitByBytes(mem, lo, hi, j);
        StepsAreMultiples(lo, j);
      }
    }
  }

  lemma FoundByBytes(mem: Memory, lo: nat, hi: nat, r: nat)
    ensures IsFound(mem, lo, hi, r) <==> FirstRoot(mem, lo, hi, r) || (r == 0 && NoRoot(mem, lo, hi))
  {
    hide IsHit, NoRoot;
    NoRootByBytes(mem, lo, hi);
    if FirstRoot(mem, lo, hi, r) {
      StepOf(lo, r);
      FirstRootByBytes(mem, lo, hi, (r - lo) / 16);
    }
    if k: nat :| IsHit(mem, lo, hi, k) && r == lo + 16 * k && forall j: nat :: j < k ==> !IsHit(mem, lo, hi, j) {
      FirstRootByBytes(mem, lo, hi, k);
    }
  }

  lemma LocatedByBytes(mem: Memory, r: nat)
    ensures IsLocated(mem, r) <==> RootLocated(mem, r)
  {
    hide IsFound, FirstRoot, NoRoot;
    var e := 16 * (mem(0x40e) + 0x100 * mem(0x40f));
    assert EbdaStart(mem) == e;
    FoundByBytes(mem, e, e + 1024, r);
    FoundByBytes(mem, e, e + 1024, 0);
    FoundByBytes(mem, 0xe0000, 0xfffff, r);
  }

  /** The pointer to the extended root table is cut to its lower half. */
  lemma LowerHalf(mem: Memory, a: nat)
    ensures ToU32(Le64(mem, a)) == Le32(mem, a)
  {
  }

  lemma LocatedUnique(mem: Memory, r: nat, s: nat)
    requires IsLocated(mem, r) && IsLocated(mem, s)
    ensures r == s
  {
  }

  /** Some place that the search looks at has a root pointer. */
  ghost predicate SomeHit(mem: Memory) {
    var ebda := EbdaStart(mem);
    AnyHit(mem, ebda, ebda + EBDA_SIZE) || AnyHit(mem, BIOS_MAIN_START, BIOS_MAIN_END)
  }

  ghost predicate AnyHit(mem: Memory, start: nat, end: nat) {
    exists k: nat :: IsHit(mem, start, end, k)
  }

  /** The search begins at address 0, stops at a root pointer there, and finds none in the BIOS area. */
  ghost predicate StoppedAtNull(mem: Memory) {
    && EbdaStart(mem) == 0 && IsRsdp(mem, 0)
    && !AnyHit(mem, BIOS_MAIN_START, BIOS_MAIN_END)
  }

  /**
   * Null means that there is no root pointer, exactly unless the search stops at one at address 0
   * and the BIOS area has none.
   */
  lemma NullMeansNone(mem: Memory, r: nat)
    requires IsLocated(mem, r)
    ensures (r == 0 <==> !SomeHit(mem)) <==> !StoppedAtNull(mem)
  {
    var ebda := EbdaStart(mem);
    if StoppedAtNull(mem) {
      assert IsHit(mem, ebda, ebda + EBDA_SIZE, 0);
    }
  }

  /** A root pointer with a matching checksum at the start of otherwise empty memory. */
  function NullRsdp(): Memory {
    (x: nat) => if x < |RSDP_SIGNATURE| then RSDP_SIGNATURE[x] else if x == 8 then 225 else 0
  }

  /** There the root pointer is not found. */
  lemma RsdpAtNullIsMissed()
    ensures SomeHit(NullRsdp()) && IsLocated(NullRsdp(), 0)
  {
    var mem := NullRsdp();
    assert ByteSum(mem, 0, 9) == 768 by {
      assert ByteSum(mem, 0, 3) == 233;
      assert ByteSum(mem, 0, 6) == 429;
    }
    ZeroTail(mem, 0, 9, RSDP_BYTES);
    assert IsHit(mem, 0, EBDA_SIZE, 0);
    forall k: nat
      ensures !IsHit(mem, BIOS_MAIN_START, BIOS_MAIN_END, k)
    {
      assert mem(BIOS_MAIN_START + RSDP_ALIGN * k + 0) != RSDP_SIGNATURE[0];
    }
  }

  lemma {:induction false} ZeroTail(mem: Memory, a: nat, n: nat, m: nat)
    requires n <= m && forall x: nat :: a + n <= x ==> mem(x) == 0
    ensures ByteSum(mem, a, m) == ByteSum(mem, a, n)
  {
    if n < m {
      ZeroTail(mem, a, n, m - 1);
    }
  }

  /** `locate_sdp`. */
  method LocateSdp(mem: Memory) returns (r: nat)
    ensures IsLocated(mem, r) && RootLocated(mem, r)
    ensures r != 0 ==> IsRsdp(mem, r)
  {
    forall s: nat
      ensures IsLocated(mem, s) <==> RootLocated(mem, s)
    {
      LocatedByBytes(mem, s);
    }
    hide IsFound, IsRsdp, EbdaStart, RootLocated;
    var ebda := EbdaStart(mem);
    r := SdpSearch(mem, ebda, ebda + EBDA_SIZE);
    if r != 0 {
      FoundIsRsdp(mem, ebda, ebda + EBDA_SIZE, r);
      return;
    }
    r := SdpSearch(mem, BIOS_MAIN_START, BIOS_MAIN_END);
    if r != 0 {
      FoundIsRsdp(mem, BIOS_MAIN_START, BIOS_MAIN_END, r);
    }
  }
}
