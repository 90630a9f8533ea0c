// The records of the memory service (crates/loom-core/src/memory_service.rs).

module MemoryTypes {
  import opened Words

  datatype Entry = Entry(
    entryId: string, agentId: string, category: string, key: string, content: string,
    createdAt: U64, updatedAt: U64, source: string, governed: bool)

  /** The pair that identifies an entry within an agent's store. */
  type Slot = (string, string)

  function SlotOf(e: Entry): Slot {
    (e.category, e.key)
  }

  /** The length of the UTF-8 encoding. */
  function Utf8Length(s: string): nat {
    if s == "" then 0
    else
      var c := s[|s| - 1] as int;
      Utf8Length(s[..|s| - 1]) + (if c < 0x80 then 1 else if c < 0x800 then 2 else if c < 0x1_0000 then 3 else 4)
  }

  /** The UTF-8 encoding of one character (section 3 of RFC 3629). */
  ghost function Encoded(c: char): seq<bv8> {
    var n := c as int;
    if n < 0x80 then [n as bv8]
    else if n < 0x800 then [(0xC0 + n / 0x40) as bv8, (0x80 + n % 0x40) as bv8]
    else if n < 0x1_0000 then
      [(0xE0 + n / 0x1000) as bv8, (0x80 + n / 0x40 % 0x40) as bv8, (0x80 + n % 0x40) as bv8]
    else
      [(0xF0 + n / 0x4_0000) as bv8, (0x80 + n / 0x1000 % 0x40) as bv8, (0x80 + n / 0x40 % 0x40) as bv8,
       (0x80 + n % 0x40) as bv8]
  }

  ghost function EncodedText(s: string): seq<bv8> {
    if s == "" then [] else Encoded(s[0]) + EncodedText(s[1..])
  }

  lemma {:induction false} EncodedPush(s: string, c: char)
    ensures EncodedText(s + [c]) == EncodedText(s) + Encoded(c)
  {
    if s == "" {
      assert [c][1..] == "" && EncodedText([c]) == Encoded(c) + [];
    } else {
      EncodedPush(s[1..], c);
      assert (s + [c])[1..] == s[1..] + [c];
    }
  }

  /** The length counts the bytes of the encoding. */
  lemma {:induction false} Utf8LengthCounts(s: string)
    ensures Utf8Length(s) == |EncodedText(s)|
  {
    if s == "" {
    } else {
      var front, last := s[..|s| - 1], s[|s| - 1];
      Utf8LengthCounts(front);
      EncodedPush(front, last);
      assert s == front + [last];
    }
  }

  function ByteSize(e: Entry): nat {
    Utf8Length(e.content) + Utf8Length(e.key) + Utf8Length(e.category)
  }

  /** The bytes of content, key and category; nothing else counts against the limit. */
  lemma ByteSizeCounts(e: Entry)
    ensures ByteSize(e) == |EncodedText(e.content)| + |EncodedText(e.key)| + |EncodedText(e.category)|
  {
    Utf8LengthCounts(e.content);
    Utf8LengthCounts(e.key);
    Utf8LengthCounts(e.category);
  }

  datatype Policy = Policy(
    maxEntriesPerAgent: nat, maxEntryBytes: nat, retentionDays: U64, agentIsolation: bool)

  datatype Receipt = Receipt(
    timestampMs: U64, operation: string, agentId: string, kind: string, receiptHash: string,
    inputSummary: string, outputSummary: string, isError: bool)
}
