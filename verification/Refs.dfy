/** The git refs advertisement: pkt-line framing, ref lines, and the tags they define.

    Reading is specified twice: as the parse that the code's loop computes, and by what an
    advertisement means, independent of the order of its lines. Printing a well-formed
    advertisement and parsing it connects the two. The formats are those of "pkt-line
    Format" in gitprotocol-common and "Discovering References" in gitprotocol-http. */
module Refs {
  import opened Options

  const HEADER: string := "# service=git-upload-pack"
  const TAG_PREFIX: string := "refs/tags/"
  const PEELED: string := "^{}"

  // ---- pkt-line framing ("pkt-line Format", gitprotocol-common) ----

  datatype Pkt = Flush | Line(payload: string)

  datatype Read = End | Truncated | BadLength | Got(pkt: Pkt, used: nat)

  function HexVal(c: char): Option<nat> {
    if '0' <= c <= '9' then Some(c as nat - '0' as nat)
    else if 'a' <= c <= 'f' then Some(c as nat - 'a' as nat + 10)
    else if 'A' <= c <= 'F' then Some(c as nat - 'A' as nat + 10)
    else None
  }

  function HexDigit(n: nat): (c: char)
    requires n < 16
    ensures HexVal(c) == Some(n)
  {
    if n < 10 then ('0' as nat + n) as char else ('a' as nat + n - 10) as char
  }

  function ParseLength(s: string): Option<nat>
    requires |s| == 4
  {
    var a, b, c, d := HexVal(s[0]), HexVal(s[1]), HexVal(s[2]), HexVal(s[3]);
    if a.None? || b.None? || c.None? || d.None? then None
    else Some(((a.value * 16 + b.value) * 16 + c.value) * 16 + d.value)
  }

  function PrintLength(n: nat): (s: string)
    requires n < 0x1_0000
    ensures |s| == 4 && ParseLength(s) == Some(n)
  {
    var a, b, c, d := n / 4096, n / 256 % 16, n / 16 % 16, n % 16;
    assert n == ((a * 16 + b) * 16 + c) * 16 + d;
    [HexDigit(a), HexDigit(b), HexDigit(c), HexDigit(d)]
  }

  /** `readPktLine`. */
  function ReadPkt(s: string): (r: Read)
    ensures r.Got? ==> 4 <= r.used <= |s|
  {
    if s == "" then End
    else if |s| < 4 then Truncated
    else match ParseLength(s[..4])
      case None => BadLength
      case Some(n) =>
        if n == 0 then Got(Flush, 4)
        else if n < 4 then BadLength
        else if |s| < n then Truncated
        else Got(Line(s[4..n]), n)
  }

  predicate Printable(p: Pkt) {
    p.Line? ==> |p.payload| + 4 < 0x1_0000
  }

  function PrintPkt(p: Pkt): string
    requires Printable(p)
  {
    match p
    case Flush => "0000"
    case Line(payload) => PrintLength(|payload| + 4) + payload
  }

  /** Reading a packet undoes printing it, whatever follows. */
  lemma ReadPrinted(p: Pkt, rest: string)
    requires Printable(p)
    ensures ReadPkt(PrintPkt(p) + rest) == Got(p, |PrintPkt(p)|)
    ensures (PrintPkt(p) + rest)[|PrintPkt(p)|..] == rest
  {
    var s := PrintPkt(p) + rest;
    match p
    case Flush =>
      assert s[..4] == "0000" && ParseLength("0000") == Some(0);
    case Line(payload) =>
      assert s[..4] == PrintLength(|payload| + 4);
      assert s[4..|payload| + 4] == payload;
  }

  // ---- Ref lines ----

  datatype Ref = Ref(sha: string, name: string)

  function TrimNewline(s: string): string {
    if s != "" && s[|s| - 1] == '\n' then s[..|s| - 1] else s
  }

  /** Up to the first occurrence of a character. */
  function Until(s: string, c: char): (r: string)
    ensures r <= s && c !in r && (|r| < |s| ==> s[|r|] == c)
  {
    if s == "" || s[0] == c then "" else [s[0]] + Until(s[1..], c)
  }

  predicate IsHexSha(s: string) {
    (|s| == 40 || |s| == 64) && forall i :: 0 <= i < |s| ==> HexVal(s[i]).Some?
  }

  /** A ref line without its newline and capabilities; `None` when it is malformed. */
  function ParseLine(payload: string): Option<Ref> {
    var text := Until(TrimNewline(payload), '\0');
    var sha := Until(text, ' ');
    if |sha| == |text| || !IsHexSha(sha) then None else Some(Ref(sha, text[|sha| + 1..]))
  }

  function LowerChar(c: char): char {
    if 'A' <= c <= 'Z' then (c as nat + 32) as char else c
  }

  function Lower(s: string): string {
    seq(|s|, i requires 0 <= i < |s| => LowerChar(s[i]))
  }

  predicate HasSuffix(s: string, suffix: string) {
    |s| >= |suffix| && s[|s| - |suffix|..] == suffix
  }

  datatype Tags = Tags(tags: map<string, string>, peeled: set<string>)

  /** The tag a ref name speaks about, directly or through its peeled object. */
  datatype About = Nothing | DirectOf(tag: string) | PeeledOf(tag: string)

  function AboutRef(name: string): About {
    if !(TAG_PREFIX <= name) then Nothing
    else
      var tag := name[|TAG_PREFIX|..];
      if !HasSuffix(tag, PEELED) then DirectOf(tag)
      else if |tag| == |PEELED| then Nothing
      else PeeledOf(tag[..|tag| - |PEELED|])
  }

  /** What one ref line does to the tags read so far. */
  function TakeRef(t: Tags, r: Ref): Tags {
    match AboutRef(r.name)
    case Nothing => t
    case PeeledOf(tag) => Tags(t.tags[tag := Lower(r.sha)], t.peeled + {tag})
    case DirectOf(tag) => if tag in t.peeled then t else t.(tags := t.tags[tag := Lower(r.sha)])
  }

  // ---- The whole advertisement ----

  datatype Outcome = Parsed(tags: map<string, string>) | TooLarge | Malformed

  function EndedBy(tooLong: bool, o: Outcome): Outcome {
    if tooLong then TooLarge else o
  }

  function ParseRest(s: string, tooLong: bool, t: Tags): Outcome
    decreases |s|
  {
    match ReadPkt(s)
    case End => EndedBy(tooLong, Parsed(t.tags))
    case Truncated => EndedBy(tooLong, Malformed)
    case BadLength => Malformed
    case Got(Flush, used) => ParseRest(s[used..], tooLong, t)
    case Got(Line(payload), used) =>
      match ParseLine(payload)
      case None => Malformed
      case Some(r) => ParseRest(s[used..], tooLong, TakeRef(t, r))
  }

  function ParseAdvertisement(s: string, tooLong: bool): Outcome {
    match ReadPkt(s)
    case End => EndedBy(tooLong, Malformed)
    case Truncated => EndedBy(tooLong, Malformed)
    case BadLength => Malformed
    case Got(Flush, _) => Malformed
    case Got(Line(payload), used) =>
      if TrimNewline(payload) != HEADER then Malformed else ParseRest(s[used..], tooLong, Tags(map[], {}))
  }

  /** `parseRefsAdvertisement`: reads at most one byte more than allowed; running into the end there
      means the advertisement is too large. */
  method Parse(s: string, maxBytes: nat) returns (r: Outcome)
    ensures r == ParseAdvertisement(if |s| > maxBytes then s[..maxBytes + 1] else s, |s| > maxBytes)
  {
    var tooLong := |s| > maxBytes;
    var visible := if tooLong then s[..maxBytes + 1] else s;
    var first := ReadPkt(visible);
    match first {
      case End => return EndedBy(tooLong, Malformed);
      case Truncated => return EndedBy(tooLong, Malformed);
      case BadLength => return Malformed;
      case Got(Flush, _) => return Malformed;
      case Got(Line(payload), used) =>
        if TrimNewline(payload) != HEADER {
          return Malformed;
        }
        r := ParseLoop(visible[used..], tooLong);
    }
  }

  method ParseLoop(s: string, tooLong: bool) returns (r: Outcome)
    ensures r == ParseRest(s, tooLong, Tags(map[], {}))
  {
    var t := Tags(map[], {});
    var rest := s;
    while true
      invariant ParseRest(s, tooLong, Tags(map[], {})) == ParseRest(rest, tooLong, t)
      decreases |rest|
    {
      match ReadPkt(rest) {
        case End => return EndedBy(tooLong, Parsed(t.tags));
        case Truncated => return EndedBy(tooLong, Malformed);
        case BadLength => return Malformed;
        case Got(Flush, used) => rest := rest[used..];
        case Got(Line(payload), used) =>
          var ref := ParseLine(payload);
          if ref.None? {
            return Malformed;
          }
          t, rest := TakeRef(t, ref.value), rest[used..];
      }
    }
  }

  // ---- Printing ("Discovering References", gitprotocol-http) ----

  predicate WellFormed(r: Ref) {
    IsHexSha(r.sha) && '\0' !in r.name && |r.sha| + |r.name| + 6 < 0x1_0000
  }

  /** The capabilities follow the first ref behind a NUL. */
  predicate WellFormedLine(r: Ref, caps: Option<string>) {
    WellFormed(r) && (caps.Some? ==> |r.sha| + |r.name| + |caps.value| + 7 < 0x1_0000)
  }

  function PrintLine(r: Ref, caps: Option<string>): (p: Pkt)
    ensures p.Line? && |p.payload| == |r.sha| + |r.name| + 2 + if caps.Some? then |caps.value| + 1 else 0
  {
    Line(r.sha + " " + r.name + (if caps.Some? then ['\0'] + caps.value else "") + "\n")
  }

  function PrintRefs(refs: seq<Ref>, caps: Option<string>): string
    requires forall i :: 0 <= i < |refs| ==> WellFormedLine(refs[i], if i == 0 then caps else None)
  {
    if refs == [] then PrintPkt(Flush)
    else
      assert WellFormedLine(refs[0], caps);
      PrintPkt(PrintLine(refs[0], caps)) + PrintRefs(refs[1..], None)
  }

  function PrintAdvertisement(refs: seq<Ref>, caps: Option<string>): string
    requires forall i :: 0 <= i < |refs| ==> WellFormedLine(refs[i], if i == 0 then caps else None)
  {
    PrintPkt(Line(HEADER + "\n")) + (PrintPkt(Flush) + PrintRefs(refs, caps))
  }

  lemma {:induction false} UntilFirst(a: string, c: char, b: string)
    requires c !in a
    ensures Until(a + [c] + b, c) == a && Until(a, c) == a
  {
    if a == "" {
      assert a + [c] + b == [c] + b;
    } else {
      assert (a + [c] + b)[1..] == a[1..] + [c] + b;
      assert forall x :: x in a[1..] ==> x in a;
      UntilFirst(a[1..], c, b);
    }
  }

  lemma LinePrinted(r: Ref, caps: Option<string>)
    requires WellFormedLine(r, caps)
    ensures Printable(PrintLine(r, caps)) && ParseLine(PrintLine(r, caps).payload) == Some(r)
  {
    var text := r.sha + " " + r.name;
    var payload := PrintLine(r, caps).payload;
    var tail := if caps.Some? then ['\0'] + caps.value else "";
    assert payload == (text + tail) + "\n";
    assert TrimNewline(payload) == text + tail;
    assert '\0' !in text by {
      assert forall i :: 0 <= i < |r.sha| ==> r.sha[i] != '\0';
    }
    assert Until(text + tail, '\0') == text by {
      if caps.Some? {
        UntilFirst(text, '\0', caps.value);
        assert text + tail == text + ['\0'] + caps.value;
      } else {
        UntilFirst(text, '\0', "");
        assert text + tail == text;
      }
    }
    assert ' ' !in r.sha by {
      assert forall i :: 0 <= i < |r.sha| ==> r.sha[i] != ' ';
    }
    UntilFirst(r.sha, ' ', r.name);
    assert text == r.sha + [' '] + r.name;
    assert text[|r.sha| + 1..] == r.name;
  }

  function TakeAll(t: Tags, refs: seq<Ref>): Tags
    decreases |refs|
  {
    if refs == [] then t else TakeAll(TakeRef(t, refs[0]), refs[1..])
  }

  lemma ParseStep(s: string, t: Tags, payload: string, used: nat, r: Ref)
    requires ReadPkt(s) == Got(Line(payload), used) && ParseLine(payload) == Some(r)
    ensures ParseRest(s, false, t) == ParseRest(s[used..], false, TakeRef(t, r))
  {
  }

  lemma ParseLast(t: Tags)
    ensures ParseRest(PrintPkt(Flush), false, t) == Parsed(t.tags)
  {
    ReadPrinted(Flush, "");
    assert PrintPkt(Flush) + "" == PrintPkt(Flush);
    assert ParseRest("", false, t) == Parsed(t.tags);
  }

  lemma {:induction false} RefsParsed(refs: seq<Ref>, caps: Option<string>, t: Tags)
    requires forall i :: 0 <= i < |refs| ==> WellFormedLine(refs[i], if i == 0 then caps else None)
    ensures ParseRest(PrintRefs(refs, caps), false, t) == Parsed(TakeAll(t, refs).tags)
    decreases |refs|
  {
    if refs == [] {
      ParseLast(t);
    } else {
      var line, rest := PrintLine(refs[0], caps), PrintRefs(refs[1..], None);
      LinePrinted(refs[0], caps);
      ReadPrinted(line, rest);
      ParseStep(PrintPkt(line) + rest, t, line.payload, |PrintPkt(line)|, refs[0]);
      RefsParsed(refs[1..], None, TakeRef(t, refs[0]));
    }
  }

  // ---- What the tags are ----

  function PeeledName(tag: string): string {
    TAG_PREFIX + tag + PEELED
  }

  function DirectName(tag: string): string {
    TAG_PREFIX + tag
  }

  predicate ListedOnce(refs: seq<Ref>) {
    forall i, j :: 0 <= i < j < |refs| ==> refs[i].name != refs[j].name
  }

  ghost predicate IsListed(refs: seq<Ref>, name: string) {
    exists r :: r in refs && r.name == name
  }

  /** The tag has a peeled ref of its own. */
  ghost predicate IsPeeled(refs: seq<Ref>, tag: string) {
    tag != "" && IsListed(refs, PeeledName(tag))
  }

  ghost predicate IsDirect(refs: seq<Ref>, tag: string) {
    !HasSuffix(tag, PEELED) && IsListed(refs, DirectName(tag))
  }

  /** Each tag has the SHA of its peeled ref if there is one, and otherwise of its own ref. */
  ghost predicate TagsOf(refs: seq<Ref>, tags: map<string, string>) {
    && (forall tag :: tag in tags <==> IsPeeled(refs, tag) || IsDirect(refs, tag))
    && (forall tag, r :: tag in tags && IsPeeled(refs, tag) && r in refs && r.name == PeeledName(tag) ==> tags[tag] == Lower(r.sha))
    && (forall tag, r :: tag in tags && !IsPeeled(refs, tag) && r in refs && r.name == DirectName(tag) ==> tags[tag] == Lower(r.sha))
  }

  ghost predicate Matches(refs: seq<Ref>, t: Tags) {
    TagsOf(refs, t.tags) && forall tag :: tag in t.peeled <==> IsPeeled(refs, tag)
  }

  /** A ref speaks about a tag exactly under the tag's two names. */
  lemma AboutNames(name: string, tag: string)
    ensures AboutRef(name) == PeeledOf(tag) <==> tag != "" && name == PeeledName(tag)
    ensures AboutRef(name) == DirectOf(tag) <==> !HasSuffix(tag, PEELED) && name == DirectName(tag)
  {
    assert (tag + PEELED)[..|tag|] == tag && HasSuffix(tag + PEELED, PEELED);
    assert PeeledName(tag) == TAG_PREFIX + (tag + PEELED);
    assert (TAG_PREFIX + tag)[|TAG_PREFIX|..] == tag;
    assert (TAG_PREFIX + (tag + PEELED))[|TAG_PREFIX|..] == tag + PEELED;
    if TAG_PREFIX <= name {
      var rest := name[|TAG_PREFIX|..];
      assert name == TAG_PREFIX + rest;
      if HasSuffix(rest, PEELED) {
        assert rest == rest[..|rest| - |PEELED|] + PEELED;
      }
    }
  }

  lemma ListedMore(refs: seq<Ref>, r: Ref, name: string)
    ensures IsListed(refs + [r], name) <==> IsListed(refs, name) || r.name == name
  {
    if IsListed(refs, name) {
      var x :| x in refs && x.name == name;
      assert x in refs + [r];
    }
    assert r in refs + [r];
  }

  /** Which tags are listed, in terms of what the new ref speaks about. */
  lemma MoreTags(refs: seq<Ref>, r: Ref, tag: string)
    ensures IsPeeled(refs + [r], tag) <==> IsPeeled(refs, tag) || AboutRef(r.name) == PeeledOf(tag)
    ensures IsDirect(refs + [r], tag) <==> IsDirect(refs, tag) || AboutRef(r.name) == DirectOf(tag)
  {
    ListedMore(refs, r, PeeledName(tag));
    ListedMore(refs, r, DirectName(tag));
    AboutNames(r.name, tag);
  }

  /** What the new ref means for one tag. */
  lemma TakeForTag(refs: seq<Ref>, t: Tags, r: Ref, tag: string)
    requires Matches(refs, t)
    ensures var u, more := TakeRef(t, r), refs + [r];
            && (tag in u.peeled <==> IsPeeled(more, tag))
            && (tag in u.tags <==> IsPeeled(more, tag) || IsDirect(more, tag))
            && (AboutRef(r.name) == PeeledOf(tag) ==> u.tags[tag] == Lower(r.sha))
            && (AboutRef(r.name) == DirectOf(tag) && !IsPeeled(more, tag) ==> u.tags[tag] == Lower(r.sha))
            && (tag in t.tags && AboutRef(r.name) != PeeledOf(tag) && (AboutRef(r.name) == DirectOf(tag) ==> IsPeeled(more, tag)) ==>
                  u.tags[tag] == t.tags[tag])
  {
    MoreTags(refs, r, tag);
  }

  lemma TakeMatches(refs: seq<Ref>, t: Tags, r: Ref)
    requires Matches(refs, t) && !IsListed(refs, r.name)
    ensures Matches(refs + [r], TakeRef(t, r))
  {
    var u, more := TakeRef(t, r), refs + [r];
    forall tag ensures (tag in u.peeled <==> IsPeeled(more, tag)) && (tag in u.tags <==> IsPeeled(more, tag) || IsDirect(more, tag)) {
      TakeForTag(refs, t, r, tag);
    }
    forall tag, x | tag in u.tags && IsPeeled(more, tag) && x in more && x.name == PeeledName(tag) ensures u.tags[tag] == Lower(x.sha) {
      PeeledValue(refs, t, r, tag, x);
    }
    forall tag, x | tag in u.tags && !IsPeeled(more, tag) && x in more && x.name == DirectName(tag) ensures u.tags[tag] == Lower(x.sha) {
      DirectValue(refs, t, r, tag, x);
    }
  }

  lemma PeeledValue(refs: seq<Ref>, t: Tags, r: Ref, tag: string, x: Ref)
    requires Matches(refs, t) && !IsListed(refs, r.name)
    requires var more := refs + [r]; IsPeeled(more, tag) && x in more && x.name == PeeledName(tag)
    ensures tag in TakeRef(t, r).tags && TakeRef(t, r).tags[tag] == Lower(x.sha)
  {
    TakeForTag(refs, t, r, tag);
    AboutNames(r.name, tag);
    if x in refs {
      assert IsListed(refs, PeeledName(tag));
    }
  }

  lemma DirectValue(refs: seq<Ref>, t: Tags, r: Ref, tag: string, x: Ref)
    requires Matches(refs, t) && !IsListed(refs, r.name)
    requires var more := refs + [r]; tag in TakeRef(t, r).tags && !IsPeeled(more, tag) && x in more && x.name == DirectName(tag)
    ensures TakeRef(t, r).tags[tag] == Lower(x.sha)
  {
    TakeForTag(refs, t, r, tag);
    MoreTags(refs, r, tag);
    AboutNames(r.name, tag);
    if x in refs {
      assert IsListed(refs, DirectName(tag));
    }
  }

  lemma {:induction false} AllMatch(seen: seq<Ref>, refs: seq<Ref>, t: Tags)
    requires ListedOnce(seen + refs) && Matches(seen, t)
    ensures Matches(seen + refs, TakeAll(t, refs))
    decreases |refs|
  {
    if refs == [] {
      assert seen + refs == seen;
    } else {
      var r, all := refs[0], seen + refs;
      assert all[|seen|] == r && (seen + [r]) + refs[1..] == all;
      forall x | x in seen ensures x.name != r.name {
        var i :| 0 <= i < |seen| && seen[i] == x;
        assert all[i] == x;
      }
      TakeMatches(seen, t, r);
      AllMatch(seen + [r], refs[1..], TakeRef(t, r));
    }
  }

  /** Parsing undoes printing: from a well-formed advertisement that lists each ref once, in any order,
      come exactly the tags it defines. */
  lemma ParsePrinted(refs: seq<Ref>, caps: Option<string>)
    requires forall i :: 0 <= i < |refs| ==> WellFormedLine(refs[i], if i == 0 then caps else None)
    requires ListedOnce(refs)
    ensures var o := ParseAdvertisement(PrintAdvertisement(refs, caps), false); o.Parsed? && TagsOf(refs, o.tags)
  {
    var rest, none := PrintRefs(refs, caps), Tags(map[], {});
    HeaderParsed(rest);
    RefsParsed(refs, caps, none);
    assert Matches([], none);
    assert [] + refs == refs;
    AllMatch([], refs, none);
  }

  /** The service line and the flush behind it. */
  lemma HeaderParsed(rest: string)
    ensures ParseAdvertisement(PrintPkt(Line(HEADER + "\n")) + (PrintPkt(Flush) + rest), false) == ParseRest(rest, false, Tags(map[], {}))
  {
    var head := Line(HEADER + "\n");
    ReadPrinted(head, PrintPkt(Flush) + rest);
    assert TrimNewline(HEADER + "\n") == HEADER;
    ReadPrinted(Flush, rest);
  }

  /** Nothing else is accepted by accident: an advertisement longer than allowed is never parsed. */
  lemma {:induction false} TooLongIsRefused(s: string, t: Tags)
    ensures !ParseRest(s, true, t).Parsed? && !ParseAdvertisement(s, true).Parsed?
    decreases |s|
  {
    RestRefused(s, t);
    match ReadPkt(s)
    case Got(Line(payload), used) => RestRefused(s[used..], Tags(map[], {}));
    case _ =>
  }

  lemma {:induction false} RestRefused(s: string, t: Tags)
    ensures !ParseRest(s, true, t).Parsed?
    decreases |s|
  {
    match ReadPkt(s)
    case Got(Flush, used) => RestRefused(s[used..], t);
    case Got(Line(payload), used) =>
      if ParseLine(payload).Some? {
        RestRefused(s[used..], TakeRef(t, ParseLine(payload).value));
      }
    case _ =>
  }
}
