/** Icon files put together from a directory and a body: what `validIco` reads of them, and when it accepts them. */
module IcoDirectory {
  import opened Bytes
  import opened Ico
  import PngStructure

  /** A directory entry as it is written: sides in one byte each, six bytes that are not read, size and offset. */
  datatype Written = Written(width: Byte, height: Byte, unread: Buffer, size: nat, offset: nat) {
    predicate Valid() {
      |unread| == 6 && size < 0x1_0000_0000 && offset < 0x1_0000_0000
    }

    function ToBytes(): (b: Buffer)
      requires Valid()
      ensures |b| == 16
    {
      [width, height] + unread + LE32(size) + LE32(offset)
    }

    /** What it says: a side of zero means 256. */
    function Says(): Entry {
      Entry(if width == 0 then 256 else width, if height == 0 then 256 else height, size, offset)
    }
  }

  function DirectoryToBytes(entries: seq<Written>): (b: Buffer)
    requires forall e | e in entries :: e.Valid()
    ensures |b| == 16 * |entries|
  {
    if entries == [] then [] else DirectoryToBytes(entries[..|entries| - 1]) + entries[|entries| - 1].ToBytes()
  }

  /** Reserved word, the type of an icon, the number of entries, the entries, and the images' bytes. */
  function IconBytes(entries: seq<Written>, body: Buffer): Buffer
    requires |entries| < 0x1_0000 && forall e | e in entries :: e.Valid()
  {
    LE16(0) + LE16(1) + LE16(|entries|) + DirectoryToBytes(entries) + body
  }

  lemma FieldInside(s: Buffer, at: nat, field: Buffer)
    requires |field| == 4 && at + 4 <= |s| && s[at..at + 4] == field
    ensures U32LE(s, at) == U32LE(field, 0)
  {
    assert s[at] == field[0] && s[at + 1] == field[1] && s[at + 2] == field[2] && s[at + 3] == field[3];
  }

  lemma EntryFields(e: Written)
    requires e.Valid()
    ensures var b := e.ToBytes(); b[0] == e.width && b[1] == e.height && b[8..12] == LE32(e.size) && b[12..16] == LE32(e.offset)
  {
    hide LE32;
  }

  lemma {:induction false} EntryInDirectory(entries: seq<Written>, k: nat)
    requires (forall e | e in entries :: e.Valid()) && k < |entries|
    ensures DirectoryToBytes(entries)[16 * k..16 * k + 16] == entries[k].ToBytes()
    decreases |entries|
  {
    hide Written.ToBytes;
    var n := |entries| - 1;
    var before := DirectoryToBytes(entries[..n]);
    if k < n {
      EntryInDirectory(entries[..n], k);
      assert DirectoryToBytes(entries)[16 * k..16 * k + 16] == before[16 * k..16 * k + 16];
    }
  }

  lemma EntryReadsBack(entries: seq<Written>, body: Buffer, k: nat)
    requires |entries| < 0x1_0000 && (forall e | e in entries :: e.Valid()) && k < |entries|
    ensures 6 + (k + 1) * 16 <= |IconBytes(entries, body)|
    ensures EntryAt(IconBytes(entries, body), k) == entries[k].Says()
  {
    hide LE16, LE32, Written.ToBytes, DirectoryToBytes;
    var bytes, e, at := IconBytes(entries, body), entries[k], 6 + 16 * k;
    EntryInDirectory(entries, k);
    assert bytes[6..6 + 16 * |entries|] == DirectoryToBytes(entries);
    assert bytes[at..at + 16] == e.ToBytes() by {
      assert bytes[at..at + 16] == bytes[6..6 + 16 * |entries|][16 * k..16 * k + 16];
    }
    EntryFields(e);
    assert bytes[at] == bytes[at..at + 16][0] && bytes[at + 1] == bytes[at..at + 16][1];
    assert bytes[at + 8..at + 12] == bytes[at..at + 16][8..12] && bytes[at + 12..at + 16] == bytes[at..at + 16][12..16];
    FieldInside(bytes, at + 8, LE32(e.size));
    FieldInside(bytes, at + 12, LE32(e.offset));
  }

  function AllSay(entries: seq<Written>): (said: seq<Entry>)
    ensures |said| == |entries| && forall i :: 0 <= i < |entries| ==> said[i] == entries[i].Says()
  {
    seq(|entries|, i requires 0 <= i < |entries| => entries[i].Says())
  }

  lemma HeaderReadsBack(entries: seq<Written>, body: Buffer)
    requires |entries| < 0x1_0000 && forall e | e in entries :: e.Valid()
    ensures var bytes := IconBytes(entries, body);
            |bytes| == 6 + 16 * |entries| + |body| && U16LE(bytes, 0) == 0 && U16LE(bytes, 2) == 1 && U16LE(bytes, 4) == |entries|
  {
    hide DirectoryToBytes, LE16;
    var bytes := IconBytes(entries, body);
    assert bytes[0] == LE16(0)[0] && bytes[1] == LE16(0)[1] && bytes[2] == LE16(1)[0] && bytes[3] == LE16(1)[1];
    assert bytes[4] == LE16(|entries|)[0] && bytes[5] == LE16(|entries|)[1];
  }

  /**
   A file put together from any directory and any body is accepted exactly when there is an entry,
   every entry names a valid image of its sides behind the directory, and the images tile the body.
   */
  lemma DirectoryIsReadBack(entries: seq<Written>, body: Buffer)
    requires |entries| < 0x1_0000 && forall e | e in entries :: e.Valid()
    ensures var bytes, start := IconBytes(entries, body), 6 + 16 * |entries|;
            IsIco(bytes) <==>
              && entries != []
              && (forall e | e in AllSay(entries) :: IsImage(bytes, e, start))
              && Tiles(Spans(AllSay(entries)), start, |bytes|)
  {
    hide IsImage, Tiles, EntryAt, IconBytes;
    var bytes := IconBytes(entries, body);
    HeaderReadsBack(entries, body);
    forall k | 0 <= k < |entries|
      ensures Entries(bytes, |entries|)[k] == AllSay(entries)[k]
    {
      EntryReadsBack(entries, body, k);
    }
    assert Entries(bytes, |entries|) == AllSay(entries);
  }

  /** In particular one image behind its directory, a bitmap or a PNG file, is an icon. */
  lemma OneImageIsAccepted(e: Written, image: Buffer)
    requires e.Valid() && e.offset == 22 && e.size == |image| > 0
    requires PngStructure.IsPng(image) || IsDib(image, e.Says().width, e.Says().height)
    ensures IsIco(IconBytes([e], image))
  {
    hide IsDib, PngStructure.IsPng, Written.ToBytes;
    var bytes := IconBytes([e], image);
    HeaderReadsBack([e], image);
    DirectoryIsReadBack([e], image);
    assert bytes[22..22 + |image|] == image;
    var spans := Spans(AllSay([e]));
    assert spans == [Range(22, 22 + |image|)] && spans[1..] == [];
    assert AllSay([e]) == [e.Says()];
    forall p: nat | 22 <= p < |bytes|
      ensures Cover(spans, p) == 1
    {
      assert Cover(spans[1..], p) == 0;
    }
  }
}
