/**
 * cray1_sim.c: the DATA segment of load_pvp_word and store_pvp_word, whose pages are
 * read from the data file when they are first needed.
 */
module Pages {

  const PAGESZ: nat := 256

  /** A word of uninitialized space: eight bytes of 0xfe. */
  const FILL: nat := 0xfefe_fefe_fefe_fefe

  datatype Page = Absent | Resident(words: seq<nat>)

  datatype Outcome = Fatal | Word(value: nat) | Done

  datatype Op = Load(offset: int) | Store(offset: int, value: nat)

  /** Pages that hold initialized data, and one more. */
  function PageCount(dataSize: nat): nat { (dataSize + PAGESZ - 1) / PAGESZ + 1 }

  // ---- The flat memory that the pages stand for ----

  /** What the data file and the fill pattern put at an offset. */
  function Initial(file: seq<nat>, dataSize: nat, offset: nat): nat {
    if offset / PAGESZ < PageCount(dataSize) - 1 && offset < |file| then file[offset] else FILL
  }

  /** The words that stores have put into memory. */
  function Contents(file: seq<nat>, dataSize: nat, stored: map<int, nat>, offset: nat): nat {
    if offset in stored then stored[offset] else Initial(file, dataSize, offset)
  }

  /** Whether the extra page has been stored to. */
  ghost predicate ExtraTouched(dataSize: nat, stored: map<int, nat>) {
    exists o: int :: o in stored && o / PAGESZ == PageCount(dataSize) - 1
  }

  predicate Storable(dataSize: nat, offset: int) {
    dataSize <= offset < PageCount(dataSize) * PAGESZ
  }

  /** What one operation on the flat memory does. */
  ghost function Step(file: seq<nat>, dataSize: nat, stored: map<int, nat>, op: Op): (Outcome, map<int, nat>) {
    match op
    case Load(o) =>
      if o < 0 || o / PAGESZ >= PageCount(dataSize) then (Fatal, stored)
      else if o / PAGESZ == PageCount(dataSize) - 1 && !ExtraTouched(dataSize, stored) then (Fatal, stored)
      else (Word(Contents(file, dataSize, stored, o)), stored)
    case Store(o, w) =>
      if Storable(dataSize, o) then (Done, stored[o := w]) else (Fatal, stored)
  }

  // ---- The pages ----

  /** A resident page shows the memory's words. */
  ghost predicate Shows(page: Page, file: seq<nat>, dataSize: nat, stored: map<int, nat>, p: nat) {
    page.Resident? ==>
      && |page.words| == PAGESZ
      && forall i :: 0 <= i < PAGESZ ==> page.words[i] == Contents(file, dataSize, stored, p * PAGESZ + i)
  }

  /** Every page shows the memory, and what has been stored is on a resident page. */
  ghost predicate Consistent(pages: seq<Page>, file: seq<nat>, dataSize: nat, stored: map<int, nat>) {
    && |file| >= dataSize && |pages| == PageCount(dataSize)
    && (forall o :: o in stored ==> Storable(dataSize, o) && pages[o / PAGESZ].Resident?)
    && (forall p :: 0 <= p < |pages| ==> Shows(pages[p], file, dataSize, stored, p))
  }

  lemma {:induction false} FilePageShows(file: seq<nat>, dataSize: nat, stored: map<int, nat>, p: nat,
        words: seq<nat>, n: nat)
    requires p < PageCount(dataSize) - 1 && |file| >= dataSize
    requires p * PAGESZ + n <= |file| && n == (if p * PAGESZ + PAGESZ > |file| then |file| - p * PAGESZ else PAGESZ)
    requires words == file[p * PAGESZ..p * PAGESZ + n] + Fill(PAGESZ - n)
    requires forall o :: o in stored ==> o / PAGESZ != p
    ensures Shows(Resident(words), file, dataSize, stored, p)
  {
    forall i | 0 <= i < PAGESZ
      ensures words[i] == Contents(file, dataSize, stored, p * PAGESZ + i)
    {
      assert (p * PAGESZ + i) / PAGESZ == p;
    }
  }

  lemma {:induction false} FillPageShows(file: seq<nat>, dataSize: nat, stored: map<int, nat>, p: nat)
    requires p == PageCount(dataSize) - 1 && forall o :: o in stored ==> o / PAGESZ != p
    ensures Shows(Resident(Fill(PAGESZ)), file, dataSize, stored, p)
  {
    var words := Fill(PAGESZ);
    forall i | 0 <= i < PAGESZ
      ensures words[i] == Contents(file, dataSize, stored, p * PAGESZ + i)
    {
      assert (p * PAGESZ + i) / PAGESZ == p;
    }
  }

  lemma {:induction false} StoredShows(pages: seq<Page>, file: seq<nat>, dataSize: nat, stored: map<int, nat>,
        offset: nat, value: nat)
    requires Consistent(pages, file, dataSize, stored) && Storable(dataSize, offset) && pages[offset / PAGESZ].Resident?
    ensures var p := offset / PAGESZ;
      Consistent(pages[p := Resident(pages[p].words[offset % PAGESZ := value])], file, dataSize,
          stored[offset := value])
  {
    var p := offset / PAGESZ;
    var updated := pages[p := Resident(pages[p].words[offset % PAGESZ := value])];
    forall k | 0 <= k < |updated|
      ensures Shows(updated[k], file, dataSize, stored[offset := value], k)
    {
      if updated[k].Resident? {
        assert Shows(pages[k], file, dataSize, stored, k);
        var words := updated[k].words;
        forall i | 0 <= i < PAGESZ
          ensures words[i] == Contents(file, dataSize, stored[offset := value], k * PAGESZ + i)
        {
          assert (k * PAGESZ + i) / PAGESZ == k && (k * PAGESZ + i) % PAGESZ == i;
        }
      }
    }
  }

  lemma {:induction false} TouchedAfter(dataSize: nat, stored: map<int, nat>, offset: int, value: nat)
    ensures ExtraTouched(dataSize, stored) || offset / PAGESZ == PageCount(dataSize) - 1
        ==> ExtraTouched(dataSize, stored[offset := value])
  {
    var after := stored[offset := value];
    if offset / PAGESZ == PageCount(dataSize) - 1 {
      assert offset in after;
    } else if ExtraTouched(dataSize, stored) {
      var o :| o in stored && o / PAGESZ == PageCount(dataSize) - 1;
      assert o in after;
    }
  }

  class Cache {
    const file: seq<nat>
    const dataSize: nat
    const dataPage: array<Page>
    ghost var stored: map<int, nat>

    ghost predicate Valid()
      reads this, dataPage
    {
      && Consistent(dataPage[..], file, dataSize, stored)
      && (dataPage[dataPage.Length - 1].Resident? ==> ExtraTouched(dataSize, stored))
    }

    constructor (file: seq<nat>, dataSize: nat)
      requires |file| >= dataSize
      ensures Valid() && this.file == file && this.dataSize == dataSize && stored == map[] && fresh(dataPage)
    {
      this.file, this.dataSize, stored := file, dataSize, map[];
      dataPage := new Page[PageCount(dataSize)](_ => Absent);
    }

    /** Read page p from the file; what lies beyond the end of the file is filled. */
    method ReadPage(p: nat)
      requires Valid() && p < dataPage.Length - 1 && dataPage[p].Absent?
      modifies dataPage
      ensures Valid() && dataPage[p].Resident?
    {
      var start := p * PAGESZ;
      var n := if start + PAGESZ > |file| then |file| - start else PAGESZ;
      var words := file[start..start + n] + Fill(PAGESZ - n);
      FilePageShows(file, dataSize, stored, p, words, n);
      ghost var before := dataPage[..];
      dataPage[p] := Resident(words);
      assert dataPage[..] == before[p := Resident(words)];
    }

    /** load_pvp_word, segment DATA. */
    method LoadWord(offset: int) returns (out: Outcome)
      requires Valid()
      modifies dataPage
      ensures Valid()
      ensures (out, stored) == Step(file, dataSize, stored, Load(offset))
    {
      var p := offset / PAGESZ;
      if offset < 0 || p >= dataPage.Length {
        return Fatal;
      }
      // The extra page exists only once it has been stored to
      if dataPage[p].Absent? && p >= dataPage.Length - 1 {
        return Fatal;
      }
      if dataPage[p].Absent? {
        ReadPage(p);
      }
      assert Shows(dataPage[..][p], file, dataSize, stored, p) && offset == p * PAGESZ + offset % PAGESZ;
      out := Word(dataPage[p].words[offset % PAGESZ]);
    }

    /** store_pvp_word, segment DATA. */
    method StoreWord(offset: int, value: nat) returns (out: Outcome)
      requires Valid()
      modifies dataPage, this`stored
      ensures Valid()
      ensures (out, stored) == Step(file, dataSize, old(stored), Store(offset, value))
    {
      // Initialized words cannot be overwritten
      if offset < dataSize || offset / PAGESZ >= dataPage.Length {
        return Fatal;
      }
      var p := offset / PAGESZ;
      // Keep the file words of a page that is partly initialized
      if dataPage[p].Absent? && p == dataPage.Length - 2 {
        ReadPage(p);
      }
      ghost var before := dataPage[..];
      if dataPage[p].Absent? {
        FillPageShows(file, dataSize, stored, p);
        dataPage[p] := Resident(Fill(PAGESZ));
        assert dataPage[..] == before[p := Resident(Fill(PAGESZ))];
      }
      before := dataPage[..];
      assert Shows(dataPage[..][p], file, dataSize, stored, p);
      StoredShows(before, file, dataSize, stored, offset, value);
      dataPage[p] := Resident(dataPage[p].words[offset % PAGESZ := value]);
      assert dataPage[..] == before[p := Resident(before[p].words[offset % PAGESZ := value])];
      TouchedAfter(dataSize, stored, offset, value);
      stored := stored[offset := value];
      out := Done;
    }

    /** A run of operations. A fatal one would end the program; here it leaves all as it is. */
    method Run(ops: seq<Op>) returns (outs: seq<Outcome>)
      requires Valid() && stored == map[]
      modifies dataPage, this`stored
      ensures Valid() && outs == Outcomes(file, dataSize, ops)
      ensures stored == After(file, dataSize, ops)
    {
      outs := [];
      var i := 0;
      while i < |ops|
        invariant i <= |ops| && Valid()
        invariant outs == Outcomes(file, dataSize, ops[..i]) && stored == After(file, dataSize, ops[..i])
      {
        var out;
        match ops[i] {
          case Load(o) => out := LoadWord(o);
          case Store(o, w) => out := StoreWord(o, w);
        }
        outs := outs + [out];
        i := i + 1;
        assert ops[..i][..i - 1] == ops[..i - 1];
      }
      assert ops[..i] == ops;
    }
  }

  // ---- Runs of the flat memory ----

  ghost function After(file: seq<nat>, dataSize: nat, ops: seq<Op>): map<int, nat> {
    if ops == [] then map[]
    else Step(file, dataSize, After(file, dataSize, ops[..|ops| - 1]), ops[|ops| - 1]).1
  }

  ghost function Outcomes(file: seq<nat>, dataSize: nat, ops: seq<Op>): (outs: seq<Outcome>)
    ensures |outs| == |ops|
  {
    if ops == [] then []
    else
      Outcomes(file, dataSize, ops[..|ops| - 1])
      + [Step(file, dataSize, After(file, dataSize, ops[..|ops| - 1]), ops[|ops| - 1]).0]
  }

  /** The last store to an offset in a run, or -1. */
  function LastStore(dataSize: nat, ops: seq<Op>, offset: int): (k: int)
    ensures -1 <= k < |ops|
    ensures k >= 0 ==> ops[k].Store? && ops[k].offset == offset
  {
    if ops == [] then -1
    else if ops[|ops| - 1].Store? && ops[|ops| - 1].offset == offset && Storable(dataSize, offset) then |ops| - 1
    else LastStore(dataSize, ops[..|ops| - 1], offset)
  }

  function Fill(n: nat): (w: seq<nat>)
    ensures |w| == n && forall i :: 0 <= i < n ==> w[i] == FILL
  {
    seq(n, _ => FILL)
  }

  lemma {:induction false} LastStoreIs(dataSize: nat, ops: seq<Op>, offset: int)
    ensures var k := LastStore(dataSize, ops, offset);
      (forall j :: k < j < |ops| ==> !(ops[j].Store? && ops[j].offset == offset && Storable(dataSize, offset)))
  {
    if ops != [] {
      var n := |ops| - 1;
      LastStoreIs(dataSize, ops[..n], offset);
      forall j | LastStore(dataSize, ops, offset) < j < |ops|
        ensures !(ops[j].Store? && ops[j].offset == offset && Storable(dataSize, offset))
      {
        if j < n { assert ops[..n][j] == ops[j]; }
      }
    }
  }

  lemma {:induction false} AfterIs(file: seq<nat>, dataSize: nat, ops: seq<Op>, offset: int)
    ensures var k := LastStore(dataSize, ops, offset); var stored := After(file, dataSize, ops);
      && (offset in stored <==> k >= 0)
      && (k >= 0 ==> stored[offset] == ops[k].value)
  {
    if ops != [] { AfterIs(file, dataSize, ops[..|ops| - 1], offset); }
  }

  /** Over any run, a load that is not fatal delivers the value of the last store to its
      address, or else the word that the file or the fill pattern put there, whichever pages
      were resident; and the initialized words never change. */
  lemma {:induction false} LoadsSeeLastStore(file: seq<nat>, dataSize: nat, ops: seq<Op>, i: nat)
    requires i < |ops| && ops[i].Load? && Outcomes(file, dataSize, ops)[i] != Fatal
    ensures var o := ops[i].offset; var k := LastStore(dataSize, ops[..i], o);
      && o >= 0
      && Outcomes(file, dataSize, ops)[i] ==
           Word(if k >= 0 then ops[k].value
                else if o < (PageCount(dataSize) - 1) * PAGESZ && o < |file| then file[o]
                else FILL)
      && (o < dataSize <= |file| ==> Outcomes(file, dataSize, ops)[i] == Word(file[o]))
    decreases |ops|
  {
    var n := |ops| - 1;
    if i < n {
      LoadsSeeLastStore(file, dataSize, ops[..n], i);
      assert ops[..n][..i] == ops[..i];
    } else {
      assert ops[..i] == ops[..n];
      AfterIs(file, dataSize, ops[..n], ops[i].offset);
      LastStoreIs(dataSize, ops[..n], ops[i].offset);
      if ops[i].offset < dataSize { NeverBelow(dataSize, ops[..n], ops[i].offset); }
    }
  }

  lemma {:induction false} NeverBelow(dataSize: nat, ops: seq<Op>, offset: int)
    requires offset < dataSize
    ensures LastStore(dataSize, ops, offset) == -1
  {
    if ops != [] { NeverBelow(dataSize, ops[..|ops| - 1], offset); }
  }

  // ---- Which operations are fatal ----

  /** The pages that hold data hold all of it, and no more than they must; one more follows. */
  lemma {:induction false} PagesEnough(dataSize: nat)
    ensures dataSize <= (PageCount(dataSize) - 1) * PAGESZ < dataSize + PAGESZ
  {
    var q := (dataSize + PAGESZ - 1) / PAGESZ;
    assert dataSize + PAGESZ - 1 == q * PAGESZ + (dataSize + PAGESZ - 1) % PAGESZ;
  }

  /** The offset lies on the page after those that hold data. */
  predicate OnExtraPage(dataSize: nat, offset: int) {
    (PageCount(dataSize) - 1) * PAGESZ <= offset < PageCount(dataSize) * PAGESZ
  }

  /** A store of the run has gone to the extra page. */
  predicate StoredToExtra(dataSize: nat, ops: seq<Op>) {
    exists j :: 0 <= j < |ops| && ops[j].Store? && OnExtraPage(dataSize, ops[j].offset)
  }

  lemma {:induction false} ExtraTouchedAfter(file: seq<nat>, dataSize: nat, ops: seq<Op>)
    ensures ExtraTouched(dataSize, After(file, dataSize, ops)) <==> StoredToExtra(dataSize, ops)
  {
    var stored := After(file, dataSize, ops);
    PagesEnough(dataSize);
    if ExtraTouched(dataSize, stored) {
      var o :| o in stored && o / PAGESZ == PageCount(dataSize) - 1;
      AfterIs(file, dataSize, ops, o);
      assert OnExtraPage(dataSize, ops[LastStore(dataSize, ops, o)].offset);
    }
    if StoredToExtra(dataSize, ops) {
      var j :| 0 <= j < |ops| && ops[j].Store? && OnExtraPage(dataSize, ops[j].offset);
      AfterIs(file, dataSize, ops, ops[j].offset);
      LastStoreIs(dataSize, ops, ops[j].offset);
      assert ops[j].offset in stored && ops[j].offset / PAGESZ == PageCount(dataSize) - 1;
    }
  }

  /** Over any run: a load is fatal exactly if its offset is negative, beyond the extra page, or on it
      before anything has been stored there; a store is done exactly if its offset lies beyond the
      initialized data and not beyond the extra page, and is fatal otherwise. */
  lemma {:induction false} FatalExactly(file: seq<nat>, dataSize: nat, ops: seq<Op>, i: nat)
    requires i < |ops|
    ensures var out, o, end := Outcomes(file, dataSize, ops)[i], ops[i].offset, PageCount(dataSize) * PAGESZ;
      if ops[i].Load? then
        (out == Fatal <==> o < 0 || o >= end || (OnExtraPage(dataSize, o) && !StoredToExtra(dataSize, ops[..i])))
      else
        out == if dataSize <= o < end then Done else Fatal
    decreases |ops|
  {
    var n := |ops| - 1;
    if i < n {
      FatalExactly(file, dataSize, ops[..n], i);
      assert ops[..n][..i] == ops[..i];
    } else {
      assert ops[..i] == ops[..n];
      ExtraTouchedAfter(file, dataSize, ops[..n]);
    }
  }
}
