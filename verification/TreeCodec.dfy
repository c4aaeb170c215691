/** The tree object: staged entries become a canonical tree, a tree becomes bytes, and the bytes give
    back that tree and no other. Bytes are characters below 256. */
module TreeCodec {
  import opened ArchivePaths
  import opened ObjectModel
  import opened Options
  import opened Repetition

  const MAGIC: string := "YRV_TREE\0"
  const HASH_SIZE: nat := 24
  const MAX_ENTRIES: nat := 1_000_000
  const MAX_PATH_BYTES: nat := 4096
  const MAX_OBJECT_BYTES: nat := 256 * 1024 * 1024
  const UINT64: nat := 0x1_0000_0000_0000_0000

  predicate IsZero(h: Hash) {
    forall i :: 0 <= i < |h| ==> h[i] == '\0'
  }

  // ---- Variable-length integers ----

  function PutUvarint(n: nat): (s: string)
    ensures s != ""
  {
    if n < 128 then [n as char] else [(128 + n % 128) as char] + PutUvarint(n / 128)
  }

  /** What fits from the byte at index `i` on: 64 bits hold nine bytes of seven bits, and one bit. */
  function Room(i: nat): (n: nat)
    requires i <= 9
    decreases 9 - i
  {
    if i == 9 then 2 else 128 * Room(i + 1)
  }

  lemma RoomIs64Bits()
    ensures Room(0) == UINT64
  {
    assert Room(8) == 128 * Room(9);
    assert Room(6) == 128 * Room(7);
    assert Room(4) == 128 * Room(5);
    assert Room(2) == 128 * Room(3);
  }

  /** `binary.Uvarint` from its byte `i` on. */
  function Uvarint(s: string, i: nat): (r: Option<Read<nat>>)
    ensures r.Some? ==> 0 < r.value.used <= |s|
    decreases |s|
  {
    if s == "" || i > 9 then None
    else
      var b := s[0] as nat;
      if b < 128 then
        (if i == 9 && b > 1 then None else Some(Read(b, 1)))
      else if b >= 256 then None
      else match Uvarint(s[1..], i + 1)
        case None => None
        case Some(rest) => Some(Read(b - 128 + 128 * rest.value, rest.used + 1))
  }

  /** `readUvarint`: only the shortest form is accepted. */
  function ReadUvarint(s: string): (r: Option<Read<nat>>)
    ensures r.Some? ==> 0 < r.value.used <= |s|
  {
    match Uvarint(s, 0)
    case None => None
    case Some(n) => if n.used == |PutUvarint(n.value)| && s[..n.used] == PutUvarint(n.value) then Some(n) else None
  }

  lemma {:induction false} UvarintPrinted(n: nat, rest: string, i: nat)
    requires i <= 9 && n < Room(i)
    ensures Uvarint(PutUvarint(n) + rest, i) == Some(Read(n, |PutUvarint(n)|))
    decreases n
  {
    var s := PutUvarint(n) + rest;
    if n >= 128 {
      assert s[1..] == PutUvarint(n / 128) + rest;
      UvarintPrinted(n / 128, rest, i + 1);
    }
  }

  lemma {:induction false} UvarintFits(s: string, i: nat)
    requires i <= 9
    ensures Uvarint(s, i).Some? ==> Uvarint(s, i).value.value < Room(i)
    decreases |s|
  {
    if s != "" && i < 9 && s[0] as nat >= 128 {
      UvarintFits(s[1..], i + 1);
    }
    if i < 9 {
      RoomAtLeast(i);
    }
  }

  lemma {:induction false} RoomAtLeast(i: nat)
    requires i < 9
    ensures Room(i) >= 256
    decreases 9 - i
  {
    if i < 8 {
      RoomAtLeast(i + 1);
    }
  }

  /** A number is read exactly from its one printed form. */
  lemma ReadsWhatWasPrinted(s: string, n: Read<nat>)
    ensures ReadUvarint(s) == Some(n) <==>
      n.value < UINT64 && n.used == |PutUvarint(n.value)| && n.used <= |s| && s[..n.used] == PutUvarint(n.value)
  {
    RoomIs64Bits();
    UvarintFits(s, 0);
    if n.value < UINT64 && n.used == |PutUvarint(n.value)| && n.used <= |s| && s[..n.used] == PutUvarint(n.value) {
      UvarintPrinted(n.value, s[n.used..], 0);
      assert s == PutUvarint(n.value) + s[n.used..];
    }
  }

  // ---- Entries ----

  function ModeByte(m: Mode): char {
    match m case File => 1 as char case Symlink => 2 as char
  }

  function ModeOf(c: char): Option<Mode> {
    if c == 1 as char then Some(File) else if c == 2 as char then Some(Symlink) else None
  }

  /** What the types of an entry hold: a 64-bit size and a hash of its fixed length. */
  predicate Representable(e: Entry) {
    e.size < UINT64 && |e.blob| == HASH_SIZE
  }

  predicate Printable(e: Entry) {
    Representable(e) && 1 <= |e.path| <= MAX_PATH_BYTES
  }

  function PrintEntry(e: Entry): string {
    PutUvarint(|e.path|) + e.path + [ModeByte(e.mode)] + PutUvarint(e.size) + e.blob
  }

  function PrintEntries(es: seq<Entry>): string {
    PrintMany(PrintEntry, es)
  }

  function PrintTree(es: seq<Entry>): string {
    MAGIC + (PutUvarint(|es|) + PrintEntries(es))
  }

  /** The part of an entry behind its path. */
  function ParseTail(s: string, path: string): (r: Option<Read<Entry>>)
    ensures r.Some? ==> r.value.used <= |s|
  {
    if s == "" then None
    else match ModeOf(s[0])
      case None => None
      case Some(mode) =>
        match ReadUvarint(s[1..])
        case None => None
        case Some(size) =>
          var at := 1 + size.used;
          if |s| - at < HASH_SIZE then None
          else Some(Read(Entry(path, mode, size.value, s[at..at + HASH_SIZE]), at + HASH_SIZE))
  }

  function ParseEntry(s: string): (r: Option<Read<Entry>>)
    ensures r.Some? ==> 0 < r.value.used <= |s|
  {
    match ReadUvarint(s)
    case None => None
    case Some(n) =>
      if n.value == 0 || n.value > MAX_PATH_BYTES || n.value > |s| - n.used then None
      else
        var at := n.used + n.value;
        match ParseTail(s[at..], s[n.used..at])
        case None => None
        case Some(p) => Some(Read(p.value, at + p.used))
  }

  function PrintTail(e: Entry): string {
    [ModeByte(e.mode)] + PutUvarint(e.size) + e.blob
  }

  lemma TailPrinted(e: Entry, rest: string)
    requires Representable(e)
    ensures ParseTail(PrintTail(e) + rest, e.path) == Some(Read(e, |PrintTail(e)|))
  {
    var s, size := PrintTail(e) + rest, PutUvarint(e.size);
    assert s[1..] == size + (e.blob + rest);
    assert s[1..][..|size|] == size;
    ReadsWhatWasPrinted(s[1..], Read(e.size, |size|));
    assert s[1 + |size|..1 + |size| + HASH_SIZE] == e.blob;
  }

  lemma TailReprints(s: string, path: string)
    ensures ParseTail(s, path).Some? ==> var p := ParseTail(s, path).value;
      Representable(p.value) && p.value.path == path && PrintTail(p.value) == s[..p.used]
  {
    if ParseTail(s, path).Some? {
      var p, n := ParseTail(s, path).value, ReadUvarint(s[1..]).value;
      ReadsWhatWasPrinted(s[1..], n);
      assert s[..p.used] == [s[0]] + s[1..][..n.used] + s[1 + n.used..1 + n.used + HASH_SIZE];
    }
  }

  lemma Cut(n: string, path: string, tail: string)
    ensures var s := n + path + tail; s[..|n|] == n && s[|n|..|n| + |path|] == path && s[|n| + |path|..] == tail
  {
  }

  lemma Glue(a: string, b: string, c: string, d: string)
    ensures a + b + (c + d) == (a + b + c) + d
  {
  }

  function PrintHead(e: Entry): string {
    PutUvarint(|e.path|) + e.path
  }

  lemma HeadAndTail(e: Entry)
    ensures PrintEntry(e) == PrintHead(e) + PrintTail(e)
  {
  }

  /** Reading an entry undoes printing it, whatever follows. */
  lemma EntryPrinted(e: Entry, rest: string)
    requires Printable(e)
    ensures ParseEntry(PrintEntry(e) + rest) == Some(Read(e, |PrintEntry(e)|))
  {
    var n, tail := PutUvarint(|e.path|), PrintTail(e) + rest;
    HeadAndTail(e);
    Glue(n, e.path, PrintTail(e), rest);
    HeadPrinted(e.path, tail);
    TailPrinted(e, rest);
  }

  lemma HeadPrinted(path: string, tail: string)
    requires 1 <= |path| <= MAX_PATH_BYTES
    ensures var n := PutUvarint(|path|);
            ParseEntry(n + path + tail) ==
              match ParseTail(tail, path) case None => None case Some(p) => Some(Read(p.value, |n| + |path| + p.used))
  {
    var n := PutUvarint(|path|);
    Cut(n, path, tail);
    ReadsWhatWasPrinted(n + path + tail, Read(|path|, |n|));
  }

  lemma ThreeSlices(s: string, a: nat, b: nat, c: nat)
    requires a <= b <= c <= |s|
    ensures s[..c] == s[..a] + s[a..b] + s[b..][..c - b]
  {
  }

  /** And printing what was read gives back the bytes that were read. */
  lemma EntryReprints(s: string)
    ensures ParseEntry(s).Some? ==> var p := ParseEntry(s).value; Printable(p.value) && PrintEntry(p.value) == s[..p.used]
  {
    if ParseEntry(s).Some? {
      var p, n := ParseEntry(s).value, ReadUvarint(s).value;
      var at := n.used + n.value;
      ReadsWhatWasPrinted(s, n);
      TailReprints(s[at..], s[n.used..at]);
      HeadAndTail(p.value);
      ThreeSlices(s, n.used, at, p.used);
    }
  }

  /** The least that `n` entries take: one byte for each variable part and the mode, and the hash. */
  function MinBytes(n: nat): nat {
    28 * n
  }

  lemma EntryIsLong(e: Entry)
    requires Printable(e)
    ensures |PrintEntry(e)| >= MinBytes(1)
  {
  }

  // ---- Lists of entries ----

  /** `n` entries and nothing behind them. */
  function ParseEntries(s: string, n: nat): Option<seq<Entry>> {
    ParseMany(ParseEntry, s, n)
  }

  predicate AllPrintable(es: seq<Entry>) {
    forall i :: 0 <= i < |es| ==> Printable(es[i])
  }

  lemma EntriesPrinted(es: seq<Entry>)
    requires AllPrintable(es)
    ensures ParseEntries(PrintEntries(es), |es|) == Some(es)
  {
    forall e, rest | Printable(e) ensures ParseEntry(PrintEntry(e) + rest) == Some(Read(e, |PrintEntry(e)|)) {
      EntryPrinted(e, rest);
    }
    ManyPrinted(ParseEntry, PrintEntry, Printable, es);
  }

  lemma EntriesReprint(s: string, n: nat)
    requires ParseEntries(s, n).Some?
    ensures var es := ParseEntries(s, n).value; |es| == n && AllPrintable(es) && PrintEntries(es) == s
  {
    forall t | ParseEntry(t).Some?
      ensures var r := ParseEntry(t).value; r.used <= |t| && Printable(r.value) && PrintEntry(r.value) == t[..r.used]
    {
      EntryReprints(t);
    }
    ManyReprint(ParseEntry, PrintEntry, Printable, s, n);
  }

  lemma EntriesAreLong(es: seq<Entry>)
    requires AllPrintable(es)
    ensures |PrintEntries(es)| >= MinBytes(|es|)
  {
    forall i | 0 <= i < |es| ensures |PrintEntry(es[i])| >= MinBytes(1) {
      EntryIsLong(es[i]);
    }
    PrintLength(PrintEntry, es, MinBytes(1));
  }

  // ---- The tree object ----

  /** A tree that has a tree object: canonical entries, and within the limits of the format. */
  ghost predicate Valid(clean: Cleaner, es: seq<Entry>) {
    && ValidTree(clean, es)
    && (forall e :: e in es ==> Printable(e) && !IsZero(e.blob))
    && |es| <= MAX_ENTRIES
  }

  /** `clean` refuses what is too long or empty, as the path rules do. */
  ghost predicate Bounded(clean: Cleaner) {
    forall p :: Canonical(clean, p) ==> 1 <= |p| <= MAX_PATH_BYTES
  }

  /** The count in front of the entries: not zero, and not more than can follow. */
  function ParseCount(s: string): (r: Option<Read<nat>>)
    ensures r.Some? ==> 0 < r.value.used <= |s| && 0 < r.value.value <= MAX_ENTRIES
  {
    match ReadUvarint(s)
    case None => None
    case Some(n) => if n.value == 0 || n.value > MAX_ENTRIES || n.value > (|s| - n.used) / 28 then None else Some(n)
  }

  function ParseBody(s: string): Option<seq<Entry>> {
    match ParseCount(s)
    case None => None
    case Some(n) => ParseEntries(s[n.used..], n.value)
  }

  lemma CountPrinted(n: nat, body: string)
    requires 0 < n <= MAX_ENTRIES && |body| >= MinBytes(n)
    ensures ParseCount(PutUvarint(n) + body) == Some(Read(n, |PutUvarint(n)|))
  {
    var s := PutUvarint(n) + body;
    assert s[..|PutUvarint(n)|] == PutUvarint(n);
    ReadsWhatWasPrinted(s, Read(n, |PutUvarint(n)|));
  }

  lemma CountReprints(s: string)
    ensures ParseCount(s).Some? ==> var n := ParseCount(s).value; s == PutUvarint(n.value) + s[n.used..]
  {
    if ParseCount(s).Some? {
      var n := ParseCount(s).value;
      ReadsWhatWasPrinted(s, n);
      assert s == s[..n.used] + s[n.used..];
    }
  }

  lemma BodyPrinted(es: seq<Entry>)
    requires 0 < |es| <= MAX_ENTRIES && AllPrintable(es)
    ensures ParseBody(PutUvarint(|es|) + PrintEntries(es)) == Some(es)
  {
    var n, body := PutUvarint(|es|), PrintEntries(es);
    EntriesAreLong(es);
    CountPrinted(|es|, body);
    EntriesPrinted(es);
    assert (n + body)[|n|..] == body;
  }

  lemma BodyReprints(s: string)
    ensures ParseBody(s).Some? ==> var es := ParseBody(s).value;
      0 < |es| <= MAX_ENTRIES && AllPrintable(es) && s == PutUvarint(|es|) + PrintEntries(es)
  {
    if ParseBody(s).Some? {
      var n := ParseCount(s).value;
      CountReprints(s);
      EntriesReprint(s[n.used..], n.value);
    }
  }

  /** The body is read exactly from the printed form of its entries. */
  lemma BodyRoundTrip(s: string, es: seq<Entry>)
    requires 0 < |es| <= MAX_ENTRIES
    ensures ParseBody(s) == Some(es) <==> AllPrintable(es) && s == PutUvarint(|es|) + PrintEntries(es)
  {
    if AllPrintable(es) {
      BodyPrinted(es);
    }
    BodyReprints(s);
  }

  /** The checks of `validateEntry` on every entry. */
  method CheckEntries(clean: Cleaner, es: seq<Entry>) returns (ok: bool)
    ensures ok <==> forall e :: e in es ==> Canonical(clean, e.path) && !IsZero(e.blob)
  {
    for i := 0 to |es|
      invariant forall j :: 0 <= j < i ==> Canonical(clean, es[j].path) && !IsZero(es[j].blob)
    {
      if !Canonical(clean, es[i].path) || IsZero(es[i].blob) {
        assert es[i] in es;
        return false;
      }
    }
    return true;
  }

  /** `parseBinary` behind the magic: the count, then one entry after another. */
  method ParseBinary(s: string) returns (r: Option<seq<Entry>>)
    ensures r == ParseBody(s)
  {
    var n := ParseCount(s);
    if n.None? {
      return None;
    }
    r := ReadMany(ParseEntry, s[n.value.used..], n.value.value);
  }

  /** `Decode`: a tree is accepted exactly from the printed form of its entries in path order. */
  method Decode(clean: Cleaner, data: string) returns (r: Option<seq<Entry>>)
    ensures r.Some? ==> Valid(clean, r.value) && Ascending(r.value) && data == PrintTree(r.value) && |data| <= MAX_OBJECT_BYTES
    ensures r.None? ==> forall es :: Valid(clean, es) && Ascending(es) && |PrintTree(es)| <= MAX_OBJECT_BYTES ==> data != PrintTree(es)
  {
    if data == "" || |data| > MAX_OBJECT_BYTES || !(MAGIC <= data) {
      PrintedParts();
      return None;
    }
    var body := data[|MAGIC|..];
    var parsed := ParseBinary(body);
    OnlyParsed(clean, data);
    if parsed.None? {
      return None;
    }
    BodyReprints(body);
    PrintedFrom(data, parsed.value);
    var ordered := ValidateParsed(clean, parsed.value);
    var checked := CheckEntries(clean, parsed.value);
    if !ordered || !checked {
      return None;
    }
    AllArePrintable(parsed.value);
    return parsed;
  }

  lemma AllArePrintable(es: seq<Entry>)
    requires AllPrintable(es)
    ensures forall e :: e in es ==> Printable(e)
  {
  }

  lemma Rejoin(s: string, front: string)
    requires front <= s
    ensures s == front + s[|front|..]
  {
  }

  lemma Behind(front: string, s: string)
    ensures front <= front + s && (front + s)[|front|..] == s
  {
  }

  lemma PrintedFrom(data: string, es: seq<Entry>)
    requires MAGIC <= data && data[|MAGIC|..] == PutUvarint(|es|) + PrintEntries(es)
    ensures data == PrintTree(es)
  {
    Rejoin(data, MAGIC);
  }

  lemma PrintedParts()
    ensures forall es :: MAGIC <= PrintTree(es) && PrintTree(es)[|MAGIC|..] == PutUvarint(|es|) + PrintEntries(es)
  {
    forall es ensures MAGIC <= PrintTree(es) && PrintTree(es)[|MAGIC|..] == PutUvarint(|es|) + PrintEntries(es) {
      Behind(MAGIC, PutUvarint(|es|) + PrintEntries(es));
    }
  }

  /** Whatever valid tree the data is the printed form of, it is the one that was parsed. */
  lemma OnlyParsed(clean: Cleaner, data: string)
    requires MAGIC <= data
    ensures forall es :: Valid(clean, es) && data == PrintTree(es) ==> ParseBody(data[|MAGIC|..]) == Some(es)
  {
    PrintedParts();
    forall es | Valid(clean, es) && data == PrintTree(es) ensures ParseBody(data[|MAGIC|..]) == Some(es) {
      assert AllPrintable(es);
      BodyPrinted(es);
    }
  }

  // ---- Encoding ----

  /** `binaryCapacity`: whether the object stays within its limit. */
  method Fits(es: seq<Entry>) returns (fits: bool)
    requires es != []
    ensures fits <==> |PrintTree(es)| <= MAX_OBJECT_BYTES
  {
    var size := |MAGIC| + |PutUvarint(|es|)|;
    for i := 0 to |es|
      invariant size == |MAGIC| + |PutUvarint(|es|)| + |PrintEntries(es[..i])|
      invariant i > 0 ==> size <= MAX_OBJECT_BYTES
    {
      PrintNext(PrintEntry, es, i);
      size := size + |PutUvarint(|es[i].path|)| + |es[i].path| + 1 + |PutUvarint(es[i].size)| + |es[i].blob|;
      if size > MAX_OBJECT_BYTES {
        PrintGrows(PrintEntry, es, i + 1);
        return false;
      }
    }
    assert es[..|es|] == es;
    return true;
  }

  lemma Glue3(a: string, b: string, c: string, d: string)
    ensures a + (b + (c + d)) == a + (b + c) + d
  {
  }

  method Print(es: seq<Entry>) returns (data: string)
    ensures data == PrintTree(es)
  {
    data := MAGIC + PutUvarint(|es|);
    assert es[..0] == [] && PutUvarint(|es|) + "" == PutUvarint(|es|);
    for i := 0 to |es|
      invariant data == MAGIC + (PutUvarint(|es|) + PrintEntries(es[..i]))
    {
      PrintNext(PrintEntry, es, i);
      Glue3(MAGIC, PutUvarint(|es|), PrintEntries(es[..i]), PrintEntry(es[i]));
      data := data + PrintEntry(es[i]);
    }
    assert es[..|es|] == es;
  }

  predicate InPathOrder(es: seq<Entry>, order: seq<Entry>) {
    Ascending(order) && multiset(order) == multiset(es)
  }

  /** The data is the printed form of the entries in path order. */
  ghost predicate EncodesTo(es: seq<Entry>, data: string) {
    exists order :: InPathOrder(es, order) && data == PrintTree(order)
  }

  /** `Encode`: accepted exactly when the entries, in any order, make a valid tree whose object is not too
      large; the bytes are those of the tree in path order. */
  method Encode(clean: Cleaner, es: seq<Entry>) returns (r: Option<string>)
    requires Bounded(clean) && forall e :: e in es ==> Representable(e)
    ensures r.Some? ==> Valid(clean, es) && EncodesTo(es, r.value) && |r.value| <= MAX_OBJECT_BYTES
    ensures r.None? ==> forall data :: Valid(clean, es) && EncodesTo(es, data) ==> |data| > MAX_OBJECT_BYTES
  {
    if es == [] || |es| > MAX_ENTRIES {
      return None;
    }
    var order := SortEntries(es);
    SameTree(es, order);
    assert |order| == |multiset(order)| == |multiset(es)| == |es|;
    var checked := CheckEntries(clean, order);
    if !checked {
      return None;
    }
    var ok := ScanInOrder(order);
    if !ok {
      return None;
    }
    assert InPathOrder(es, order);
    forall data | EncodesTo(es, data) ensures data == PrintTree(order) {
      OneEncoding(es, order, data);
    }
    var fits := Fits(order);
    if !fits {
      return None;
    }
    var data := Print(order);
    return Some(data);
  }

  lemma OneEncoding(es: seq<Entry>, order: seq<Entry>, data: string)
    requires InPathOrder(es, order) && EncodesTo(es, data)
    ensures data == PrintTree(order)
  {
    var other :| InPathOrder(es, other) && data == PrintTree(other);
    AscendingIsUnique(other, order);
  }

  /** Different trees have different bytes, whatever their order was: the hash of the bytes names one tree. */
  lemma SameBytesSameTree(clean: Cleaner, a: seq<Entry>, b: seq<Entry>, data: string, other: string)
    requires Valid(clean, a) && Valid(clean, b) && EncodesTo(a, data) && EncodesTo(b, other)
    ensures data == other <==> multiset(a) == multiset(b)
  {
    var orderA :| InPathOrder(a, orderA) && data == PrintTree(orderA);
    var orderB :| InPathOrder(b, orderB) && other == PrintTree(orderB);
    if multiset(a) == multiset(b) {
      AscendingIsUnique(orderA, orderB);
    }
    if data == other {
      OrderIsPrintable(clean, a, orderA);
      OrderIsPrintable(clean, b, orderB);
      PrintedParts();
      var body := data[|MAGIC|..];
      BodyRoundTrip(body, orderA);
      BodyRoundTrip(body, orderB);
    }
  }

  lemma OrderIsPrintable(clean: Cleaner, es: seq<Entry>, order: seq<Entry>)
    requires Valid(clean, es) && InPathOrder(es, order)
    ensures AllPrintable(order) && 0 < |order| <= MAX_ENTRIES
  {
    assert |order| == |multiset(order)| == |multiset(es)| == |es|;
    forall i | 0 <= i < |order| ensures Printable(order[i]) {
      assert order[i] in multiset(order);
      assert order[i] in es;
    }
  }

  /** Decoding undoes encoding, and encoding undoes decoding. */
  method EncodeThenDecode(clean: Cleaner, es: seq<Entry>) returns (r: Option<seq<Entry>>)
    requires Bounded(clean) && forall e :: e in es ==> Representable(e)
    ensures r.Some? ==> InPathOrder(es, r.value)
    ensures r.None? ==> forall data :: Valid(clean, es) && EncodesTo(es, data) ==> |data| > MAX_OBJECT_BYTES
  {
    var data := Encode(clean, es);
    if data.None? {
      return None;
    }
    ghost var order :| InPathOrder(es, order) && data.value == PrintTree(order);
    OrderIsValid(clean, es, order);
    r := Decode(clean, data.value);
    assert r.Some?;
    SameBytesSameTree(clean, r.value, order, data.value, data.value);
  }

  lemma OrderIsValid(clean: Cleaner, es: seq<Entry>, order: seq<Entry>)
    requires Valid(clean, es) && InPathOrder(es, order)
    ensures Valid(clean, order) && EncodesTo(order, PrintTree(order))
  {
    assert |order| == |multiset(order)| == |multiset(es)| == |es|;
    assert forall e :: e in order <==> e in multiset(order);
    assert forall e :: e in es <==> e in multiset(es);
    AscendingIsDistinct(order);
    assert InPathOrder(order, order);
  }
}
