/**
 * Persistent storage in the firmware's flash: a page holds a big-endian `u16` length,
 * the payload, then zero padding up to `PAGE_SIZE`.  The device has two banks of 256
 * pages; with dual-bank boot the running bank is mapped at the flash base address.
 *
 * The page store is modelled as a map from physical page numbers to their contents; a
 * page never written reads as erased flash, all 0xFF.
 */
module FlashStore {
  import opened Wrappers
  import opened Bytes

  const PAGE_SIZE: nat := 2048
  /** Pages per bank: Bank2's page p is physical page p + 256. */
  const BANK_PAGES: nat := 256

  /** `FlashError`; the HAL's `flash::Error` is carried as an opaque code. */
  datatype FlashError = CorruptedData | Deserialization | Flash(code: nat)

  datatype FlashBank = Bank1 | Bank2
  {
    /** `FlashBank::opposite`. */
    function Opposite(): (r: FlashBank)
      ensures r != this
    {
      match this
      case Bank1 => Bank2
      case Bank2 => Bank1
    }
  }

  /** Taking the opposite bank twice gives the bank back. */
  lemma OppositeInvolution(b: FlashBank)
    ensures b.Opposite().Opposite() == b
  {
  }

  datatype BankStatus = Active | Spare

  /** `BankToFlash::physical_bank_page`: page `page` of bank `bank` as an absolute page number. */
  function PhysicalBankPage(bank: FlashBank, page: nat): (r: nat)
    ensures page < BANK_PAGES ==> r < 2 * BANK_PAGES && (r < BANK_PAGES <==> bank == Bank1) && r % BANK_PAGES == page
  {
    match bank
    case Bank1 => page
    case Bank2 => page + BANK_PAGES
  }

  /** Within the 256 pages of a bank, the two banks' pages never coincide, and each bank's mapping is one to one. */
  lemma BankPagesDisjoint(b1: FlashBank, p1: nat, b2: FlashBank, p2: nat)
    requires p1 < BANK_PAGES && p2 < BANK_PAGES
    ensures PhysicalBankPage(b1, p1) == PhysicalBankPage(b2, p2) <==> b1 == b2 && p1 == p2
  {
  }

  /** `BankToFlash`: the bank recorded in `physical`, from which the absolute pages are chosen. */
  datatype BankToFlash = BankToFlash(physical: FlashBank)
  {
    /**
     * `get_logical_address`: the address of the page in the running (Active) or spare
     * bank as the running code sees memory; `toAddress` is the HAL's `FlashPage::to_address`.
     * Addresses are relative to the running bank, so Active is always Bank1's numbering
     * and Spare always Bank2's, whatever `physical` says.
     */
    function GetLogicalAddress(toAddress: nat -> nat, which: BankStatus, page: nat): (r: nat)
      ensures which == Active ==> r == toAddress(page)
      ensures which == Spare ==> r == toAddress(page + BANK_PAGES)
    {
      var bank := match which
        case Active => Bank1
        case Spare => Bank2;
      toAddress(PhysicalBankPage(bank, page))
    }

    /** `get_physical_page`: Active is the bank opposite `physical`, Spare is `physical`. */
    function GetPhysicalPage(which: BankStatus, page: nat): (r: nat)
      ensures page < BANK_PAGES ==> r % BANK_PAGES == page
      ensures page < BANK_PAGES ==> (r < BANK_PAGES <==> (which == Active) == (physical == Bank2))
    {
      var bank := match which
        case Active => physical.Opposite()
        case Spare => physical;
      PhysicalBankPage(bank, page)
    }
  }

  /**
   * The relative page `page` (as `FlashPage(page).to_address()` numbers it) seen through the
   * dual-bank mapping: relative pages below 256 are the running bank, the next 256 the
   * other bank.  `fb_mode` means booted from Bank2.
   */
  function AddressBacking(fbMode: bool, page: nat): (r: nat)
    requires page < 2 * BANK_PAGES
    ensures r < 2 * BANK_PAGES && r % BANK_PAGES == page % BANK_PAGES
  {
    var running := RunningBank(fbMode);
    if page < BANK_PAGES then PhysicalBankPage(running, page)
    else PhysicalBankPage(running.Opposite(), page - BANK_PAGES)
  }

  /** Distinct relative pages are backed by distinct physical pages. */
  lemma AddressBackingInjective(fbMode: bool, p: nat, q: nat)
    requires p < 2 * BANK_PAGES && q < 2 * BANK_PAGES
    ensures AddressBacking(fbMode, p) == AddressBacking(fbMode, q) <==> p == q
  {
  }

  /**
   * The logical addresses follow the boot: the Active page's address is backed by the
   * running bank's physical page, the Spare page's by the other bank's.
   */
  lemma LogicalPagesFollowBoot(fbMode: bool, page: nat)
    requires page < BANK_PAGES
    ensures AddressBacking(fbMode, PhysicalBankPage(Bank1, page)) == PhysicalBankPage(RunningBank(fbMode), page)
    ensures AddressBacking(fbMode, PhysicalBankPage(Bank2, page)) == PhysicalBankPage(RunningBank(fbMode).Opposite(), page)
  {
  }

  /** The Active and Spare physical pages for a page number lie in opposite banks, and swapping `physical` swaps them. */
  lemma ActiveSpareOpposite(m: BankToFlash, page: nat)
    ensures m.GetPhysicalPage(Active, page) != m.GetPhysicalPage(Spare, page)
    ensures BankToFlash(m.physical.Opposite()).GetPhysicalPage(Active, page) == m.GetPhysicalPage(Spare, page)
    ensures BankToFlash(m.physical.Opposite()).GetPhysicalPage(Spare, page) == m.GetPhysicalPage(Active, page)
  {
  }

  // ---------------------------------------------------------------------------
  // Page framing

  /** The bytes `write_flash` programs: length, payload, zero padding; too long a payload is refused. */
  function PageImage(payload: seq<u8>): (r: Result<seq<u8>, FlashError>)
    ensures r.Err? <==> |payload| > PAGE_SIZE - 2
    ensures r.Err? ==> r.error == CorruptedData
    ensures r.Ok? ==> |r.value| == PAGE_SIZE
  {
    if |payload| > PAGE_SIZE - 2 then Err(CorruptedData)
    else Ok(BeU16(|payload|) + payload + seq(PAGE_SIZE - 2 - |payload|, _ => 0))
  }

  /** `read_flash`'s decoding as written: a length of `PAGE_SIZE - 2` or more is refused. */
  function DecodePageAsWritten(page: seq<u8>): (r: Result<seq<u8>, FlashError>)
    requires |page| == PAGE_SIZE
    ensures r.Err? <==> BeU16Value(page[0], page[1]) >= PAGE_SIZE - 2
    ensures r.Ok? ==> (|r.value| == BeU16Value(page[0], page[1]) && r.value == page[2..2 + |r.value|])
  {
    var len := BeU16Value(page[0], page[1]);
    if len >= PAGE_SIZE - 2 then Err(CorruptedData) else Ok(page[2..2 + len])
  }

  /** `read_flash`'s decoding with the bound `write_flash` uses: a length above `PAGE_SIZE - 2` is refused. */
  function DecodePage(page: seq<u8>): (r: Result<seq<u8>, FlashError>)
    requires |page| == PAGE_SIZE
    ensures r.Err? <==> BeU16Value(page[0], page[1]) > PAGE_SIZE - 2
    ensures r.Ok? ==> (|r.value| == BeU16Value(page[0], page[1]) && r.value == page[2..2 + |r.value|])
  {
    var len := BeU16Value(page[0], page[1]);
    if len > PAGE_SIZE - 2 then Err(CorruptedData) else Ok(page[2..2 + len])
  }

  /** The image starts with the payload's length, then the payload, and is zero after it. */
  lemma PageImageLayout(payload: seq<u8>)
    requires |payload| <= PAGE_SIZE - 2
    ensures var image := PageImage(payload).value;
      && BeU16Value(image[0], image[1]) == |payload|
      && image[2..2 + |payload|] == payload
      && forall i :: 2 + |payload| <= i < PAGE_SIZE ==> image[i] == 0
  {
    var image := PageImage(payload).value;
    assert image[..2] == BeU16(|payload|);
  }

  /** As written, a payload shorter than `PAGE_SIZE - 2` reads back as itself. */
  lemma PageRoundTripAsWritten(payload: seq<u8>)
    requires |payload| < PAGE_SIZE - 2
    ensures DecodePageAsWritten(PageImage(payload).value) == Ok(payload)
  {
    PageImageLayout(payload);
  }

  /** As written, a payload of exactly `PAGE_SIZE - 2` bytes is stored but cannot be read back. */
  lemma FullPayloadNotReadBack(payload: seq<u8>)
    requires |payload| == PAGE_SIZE - 2
    ensures PageImage(payload).Ok?
    ensures DecodePageAsWritten(PageImage(payload).value) == Err(CorruptedData)
  {
    PageImageLayout(payload);
  }

  /** With the matching bound, every payload `write_flash` accepts reads back as itself. */
  lemma PageRoundTrip(payload: seq<u8>)
    requires PageImage(payload).Ok?
    ensures DecodePage(PageImage(payload).value) == Ok(payload)
  {
    PageImageLayout(payload);
  }

  /** The two readers differ only on a stored length of exactly `PAGE_SIZE - 2`. */
  lemma ReadersAgreeElsewhere(page: seq<u8>)
    requires |page| == PAGE_SIZE
    ensures DecodePage(page) != DecodePageAsWritten(page) <==> BeU16Value(page[0], page[1]) == PAGE_SIZE - 2
  {
  }

  /** Erased flash, all 0xFF. */
  function Erased(): (r: seq<u8>)
    ensures |r| == PAGE_SIZE
  {
    seq(PAGE_SIZE, _ => 0xFF)
  }

  /** An erased or never-written page reads as corrupted data, under either bound. */
  lemma ErasedPageIsCorrupted()
    ensures DecodePage(Erased()) == Err(CorruptedData)
    ensures DecodePageAsWritten(Erased()) == Err(CorruptedData)
  {
    assert BeU16Value(Erased()[0], Erased()[1]) == 0xFFFF;
  }

  // ---------------------------------------------------------------------------
  // The page store

  /** The bank the code runs from: `fb_mode` means booted from Bank2. */
  function RunningBank(fbMode: bool): FlashBank {
    if fbMode then Bank2 else Bank1
  }

  /**
   * `write_flash`'s erase target, an absolute page: `page`, or `page + 256` when running
   * from Bank2, i.e. page `page` of the running bank.
   */
  function ErasePage(fbMode: bool, page: nat): (r: nat)
    ensures r == PhysicalBankPage(RunningBank(fbMode), page)
  {
    match RunningBank(fbMode)
    case Bank1 => page
    case Bank2 => page + BANK_PAGES
  }

  /**
   * The page `write_flash` erases is the page its write lands on exactly for the running
   * bank's pages; from Bank2, a page number of 256 or more is erased outside both banks
   * while the write lands in the other bank.
   */
  lemma EraseHitsWrittenPage(fbMode: bool, page: nat)
    requires page < 2 * BANK_PAGES
    ensures ErasePage(fbMode, page) == AddressBacking(fbMode, page) <==> !fbMode || page < BANK_PAGES
    ensures fbMode && page >= BANK_PAGES ==> ErasePage(fbMode, page) >= 2 * BANK_PAGES
  {
  }

  predicate WellFormed(pages: map<nat, seq<u8>>) {
    forall p | p in pages :: |pages[p]| == PAGE_SIZE
  }

  function PageIn(pages: map<nat, seq<u8>>, p: nat): (r: seq<u8>)
    requires WellFormed(pages)
    ensures |r| == PAGE_SIZE
  {
    if p in pages then pages[p] else Erased()
  }

  /** `read_flash` on a page store, with the bound `write_flash` uses. */
  function ReadPage(pages: map<nat, seq<u8>>, fbMode: bool, page: nat): (r: Result<seq<u8>, FlashError>)
    requires WellFormed(pages) && page < 2 * BANK_PAGES
    ensures AddressBacking(fbMode, page) !in pages ==> r == Err(CorruptedData)
    ensures r.Ok? ==> |r.value| <= PAGE_SIZE - 2
    ensures r.Err? ==> r.error == CorruptedData
  {
    ErasedPageIsCorrupted();
    DecodePage(PageIn(pages, AddressBacking(fbMode, page)))
  }

  /** `read_flash` on a page store, as written. */
  function ReadPageAsWritten(pages: map<nat, seq<u8>>, fbMode: bool, page: nat): (r: Result<seq<u8>, FlashError>)
    requires WellFormed(pages) && page < 2 * BANK_PAGES
    ensures AddressBacking(fbMode, page) !in pages ==> r == Err(CorruptedData)
    ensures r.Ok? ==> |r.value| < PAGE_SIZE - 2
    ensures r.Err? ==> r.error == CorruptedData
  {
    ErasedPageIsCorrupted();
    DecodePageAsWritten(PageIn(pages, AddressBacking(fbMode, page)))
  }

  /**
   * `write_flash` on a page store, for a page of the running bank: the erase, then the
   * image programmed at the page's address; or the error with the store untouched.
   */
  function WritePage(pages: map<nat, seq<u8>>, fbMode: bool, page: nat, payload: seq<u8>): (r: Result<map<nat, seq<u8>>, FlashError>)
    requires WellFormed(pages) && page < BANK_PAGES
    ensures r.Ok? ==> WellFormed(r.value)
  {
    match PageImage(payload)
    case Err(e) => Err(e)
    case Ok(image) => Ok(pages[ErasePage(fbMode, page) := Erased()][AddressBacking(fbMode, page) := image])
  }

  /** Reading a page after writing it gives the payload back; every other page reads as before. */
  lemma ReadAfterWrite(pages: map<nat, seq<u8>>, fbMode: bool, page: nat, payload: seq<u8>, other: nat)
    requires WellFormed(pages) && page < BANK_PAGES && other < 2 * BANK_PAGES
    requires WritePage(pages, fbMode, page, payload).Ok?
    ensures var after := WritePage(pages, fbMode, page, payload).value;
      ReadPage(after, fbMode, other) == if other == page then Ok(payload) else ReadPage(pages, fbMode, other)
  {
    PageRoundTrip(payload);
    EraseHitsWrittenPage(fbMode, page);
    AddressBackingInjective(fbMode, page, other);
  }

  /**
   * With `read_flash` as written, a page written with fewer than `PAGE_SIZE - 2` bytes reads
   * back, a page written with exactly `PAGE_SIZE - 2` bytes reads as `CorruptedData`, and
   * every other page reads as before.
   */
  lemma ReadAfterWriteAsWritten(pages: map<nat, seq<u8>>, fbMode: bool, page: nat, payload: seq<u8>, other: nat)
    requires WellFormed(pages) && page < BANK_PAGES && other < 2 * BANK_PAGES
    requires WritePage(pages, fbMode, page, payload).Ok?
    ensures var after := WritePage(pages, fbMode, page, payload).value;
      ReadPageAsWritten(after, fbMode, other) ==
        if other != page then ReadPageAsWritten(pages, fbMode, other)
        else if |payload| < PAGE_SIZE - 2 then Ok(payload)
        else Err(CorruptedData)
  {
    EraseHitsWrittenPage(fbMode, page);
    AddressBackingInjective(fbMode, page, other);
    if |payload| < PAGE_SIZE - 2 {
      PageRoundTripAsWritten(payload);
    } else {
      FullPayloadNotReadBack(payload);
    }
  }

  /** A write is refused exactly for an oversized payload, and a refused write changes nothing. */
  lemma RefusedWriteChangesNothing(pages: map<nat, seq<u8>>, fbMode: bool, page: nat, payload: seq<u8>)
    requires WellFormed(pages) && page < BANK_PAGES
    ensures WritePage(pages, fbMode, page, payload).Err? <==> |payload| > PAGE_SIZE - 2
  {
  }

  /** The flash peripheral as the storage code sees it. */
  class Flash {
    const fbMode: bool
    var pages: map<nat, seq<u8>>

    ghost predicate Valid()
      reads this
    {
      WellFormed(pages)
    }

    constructor(fbMode: bool, pages: map<nat, seq<u8>>)
      requires WellFormed(pages)
      ensures Valid() && this.fbMode == fbMode && this.pages == pages
    {
      this.fbMode := fbMode;
      this.pages := pages;
    }

    /** `write_flash`: refuse an oversized payload, else erase the page and program its image. */
    method WriteFlash(page: nat, serialized: seq<u8>) returns (r: Result<(), FlashError>)
      requires Valid() && page < BANK_PAGES
      modifies this`pages
      ensures Valid()
      ensures match WritePage(old(pages), fbMode, page, serialized)
        case Err(e) => r == Err(e) && pages == old(pages)
        case Ok(after) => r == Ok(()) && pages == after
    {
      var erasePage := if fbMode then page + BANK_PAGES else page;
      if |serialized| > PAGE_SIZE - 2 {
        return Err(CorruptedData);
      }
      var data := BeU16(|serialized|) + serialized;
      data := data + seq(PAGE_SIZE - |data|, _ => 0);
      pages := pages[erasePage := Erased()];
      var writePage := AddressBacking(fbMode, page);
      pages := pages[writePage := data];
      return Ok(());
    }

    /** `read_flash`: the payload stored at `page`, or `CorruptedData`. */
    method ReadFlash(page: nat) returns (r: Result<seq<u8>, FlashError>)
      requires Valid() && page < 2 * BANK_PAGES
      ensures r == ReadPage(pages, fbMode, page)
    {
      var buf := PageIn(pages, AddressBacking(fbMode, page));
      var len := BeU16Value(buf[0], buf[1]);
      if len > PAGE_SIZE - 2 {
        return Err(CorruptedData);
      }
      return Ok(buf[2..2 + len]);
    }
  }
}
