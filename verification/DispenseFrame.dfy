/**
 Dispense commands on the lower controller's serial line and the grouping of repeated
 controller frames, from scripts/testbed/delayed-pickup-native-audio-evidence.ts.
 */
module DispenseFrame {
  import opened Bytes
  import opened Words
  import opened Wrappers

  // ----- the CRC-8 register

  function Xor(a: bv8, b: bv8): bv8 { a ^ b }

  function Step(c: bv8): bv8 {
    if c & 0x80 != 0 then ((c << 1) ^ 0x07) & 0xFF else (c << 1) & 0xFF
  }

  function Steps(c: bv8, n: nat): bv8 {
    if n == 0 then c else Step(Steps(c, n - 1))
  }

  function ByteStep(c: bv8, b: Byte): bv8 {
    Steps(Xor(c, Narrow(b)), 8)
  }

  function Register(c: bv8, s: Buffer): bv8 {
    if s == [] then c else ByteStep(Register(c, s[..|s| - 1]), s[|s| - 1])
  }

  /** `crc8` */
  method Crc8(bytes: Buffer) returns (value: Byte)
    ensures value == AsByte(Register(0, bytes))
  {
    hide Step, Xor;
    var crc: bv8 := 0;
    for i := 0 to |bytes|
      invariant crc == Register(0, bytes[..i])
    {
      assert bytes[..i + 1][..i] == bytes[..i];
      crc := Xor(crc, Narrow(bytes[i]));
      for bit := 0 to 8
        invariant crc == Steps(Xor(Register(0, bytes[..i]), Narrow(bytes[i])), bit)
      {
        crc := Step(crc);
      }
    }
    assert bytes[..|bytes|] == bytes;
    value := AsByte(crc);
  }

  // ----- what the CRC detects

  function StepBack(c: bv8): bv8 {
    if c & 1 != 0 then ((c ^ 0x07) >> 1) | 0x80 else c >> 1
  }

  lemma StepThenStepBack(c: bv8)
    ensures StepBack(Step(c)) == c
  {
  }

  lemma {:induction false} StepsAreInjective(a: bv8, b: bv8, n: nat)
    requires Steps(a, n) == Steps(b, n)
    ensures a == b
  {
    if n > 0 {
      StepThenStepBack(Steps(a, n - 1));
      StepThenStepBack(Steps(b, n - 1));
      StepsAreInjective(a, b, n - 1);
    }
  }

  lemma XorIsInjective(a: bv8, b: bv8, c: bv8)
    ensures Xor(a, c) == Xor(b, c) ==> a == b
    ensures Xor(c, a) == Xor(c, b) ==> a == b
  {
  }

  lemma ByteStepInjectiveInState(c: bv8, d: bv8, b: Byte)
    requires ByteStep(c, b) == ByteStep(d, b)
    ensures c == d
  {
    StepsAreInjective(Xor(c, Narrow(b)), Xor(d, Narrow(b)), 8);
    XorIsInjective(c, d, Narrow(b));
  }

  lemma ByteStepInjectiveInByte(c: bv8, a: Byte, b: Byte)
    requires ByteStep(c, a) == ByteStep(c, b)
    ensures a == b
  {
    StepsAreInjective(Xor(c, Narrow(a)), Xor(c, Narrow(b)), 8);
    XorIsInjective(Narrow(a), Narrow(b), c);
    NarrowIsInjective(a, b);
  }

  lemma {:induction false} RegisterAppend(c: bv8, s: Buffer, t: Buffer)
    ensures Register(c, s + t) == Register(Register(c, s), t)
  {
    hide ByteStep;
    if t == [] {
      assert s + t == s;
    } else {
      RegisterAppend(c, s, t[..|t| - 1]);
      assert (s + t)[..|s + t| - 1] == s + t[..|t| - 1];
    }
  }

  lemma {:induction false} RegisterIsInjective(c: bv8, d: bv8, s: Buffer)
    requires Register(c, s) == Register(d, s)
    ensures c == d
  {
    hide ByteStep;
    if s != [] {
      ByteStepInjectiveInState(Register(c, s[..|s| - 1]), Register(d, s[..|s| - 1]), s[|s| - 1]);
      RegisterIsInjective(c, d, s[..|s| - 1]);
    }
  }

  lemma RegisterSplit(s: Buffer, i: nat)
    requires i < |s|
    ensures Register(0, s) == Register(ByteStep(Register(0, s[..i]), s[i]), s[i + 1..])
  {
    hide ByteStep;
    assert s[..i + 1][..i] == s[..i];
    assert s == s[..i + 1] + s[i + 1..];
    RegisterAppend(0, s[..i + 1], s[i + 1..]);
  }

  /** Changing one byte of a list of any length changes its CRC. */
  lemma OneByteIsDetected(s: Buffer, t: Buffer, i: nat)
    requires i < |s| == |t| && s[i] != t[i]
    requires s[..i] == t[..i] && s[i + 1..] == t[i + 1..]
    ensures Register(0, s) != Register(0, t)
  {
    hide ByteStep;
    if Register(0, s) == Register(0, t) {
      RegisterSplit(s, i);
      RegisterSplit(t, i);
      var state := Register(0, s[..i]);
      RegisterIsInjective(ByteStep(state, s[i]), ByteStep(state, t[i]), s[i + 1..]);
      ByteStepInjectiveInByte(state, s[i], t[i]);
    }
  }

  lemma {:induction false} StepsOfZero(n: nat)
    ensures Steps(0, n) == 0
  {
    if n > 0 {
      StepsOfZero(n - 1);
      assert Step(0) == 0;
    }
  }

  lemma ZeroXor(c: bv8, w: bv8)
    ensures Xor(c, w) == 0 <==> c == w
  {
  }

  /** A list followed by a byte leaves the register at zero exactly when the byte is the CRC. */
  lemma CrcLeavesZero(s: Buffer, check: Byte)
    ensures Register(0, s + [check]) == 0 <==> check == AsByte(Register(0, s))
  {
    hide Step, Xor;
    var c := Register(0, s);
    assert (s + [check])[..|s|] == s;
    assert Register(0, s + [check]) == ByteStep(c, check);
    ZeroXor(c, Narrow(check));
    NarrowOfAsByte(c, check);
    StepsOfZero(8);
    if ByteStep(c, check) == 0 {
      StepsAreInjective(Xor(c, Narrow(check)), 0, 8);
    }
  }

  // ----- hexadecimal text

  function Lower(c: char): char {
    if 'A' <= c <= 'Z' then c - 'A' + 'a' else c
  }

  function LowerAll(s: string): (t: string)
    ensures |t| == |s|
  {
    seq(|s|, i requires 0 <= i < |s| => Lower(s[i]))
  }

  predicate IsHexDigit(c: char) {
    '0' <= c <= '9' || 'a' <= c <= 'f'
  }

  predicate IsHex(s: string) {
    forall i :: 0 <= i < |s| ==> IsHexDigit(s[i])
  }

  /** `normalizeHex` */
  function NormalizeHex(value: string): Option<string> {
    var normalized := LowerAll(value);
    if |normalized| > 0 && |normalized| % 2 == 0 && IsHex(normalized) then Some(normalized) else None
  }

  function DigitValue(c: char): (n: nat)
    requires IsHexDigit(c)
    ensures n < 16
  {
    if c <= '9' then c as int - '0' as int else c as int - 'a' as int + 10
  }

  function HexDigit(n: nat): (c: char)
    requires n < 16
    ensures IsHexDigit(c) && DigitValue(c) == n
  {
    if n < 10 then '0' + n as char else 'a' + (n - 10) as char
  }

  function Join(high: nat, low: nat): Byte
    requires high < 16 && low < 16
  {
    high * 16 + low
  }

  /** `Buffer.from(hex, "hex")` */
  function Decode(hex: string): (bytes: Buffer)
    requires IsHex(hex) && |hex| % 2 == 0
    ensures |bytes| == |hex| / 2
  {
    seq(|hex| / 2, i requires 0 <= i < |hex| / 2 => Join(DigitValue(hex[2 * i]), DigitValue(hex[2 * i + 1])))
  }

  function Encode(bytes: Buffer): (hex: string)
    ensures |hex| == 2 * |bytes| && IsHex(hex)
  {
    seq(2 * |bytes|, i requires 0 <= i < 2 * |bytes| => HexDigit(Half(bytes[i / 2], i % 2)))
  }

  /** The high half of a byte, then the low half. */
  function Half(b: Byte, which: nat): (n: nat)
    ensures n < 16
  {
    if which == 0 then (b as int) / 16 else (b as int) % 16
  }

  lemma HexDigitOfValue(c: char)
    requires IsHexDigit(c)
    ensures HexDigit(DigitValue(c)) == c
  {
  }

  lemma Halves(high: nat, low: nat)
    requires high < 16 && low < 16
    ensures Half(Join(high, low), 0) == high && Half(Join(high, low), 1) == low
  {
  }

  lemma JoinHalves(b: Byte)
    ensures Join(Half(b, 0), Half(b, 1)) == b
  {
  }

  lemma EncodeOfDecode(hex: string)
    requires IsHex(hex) && |hex| % 2 == 0
    ensures Encode(Decode(hex)) == hex
  {
    hide DigitValue, HexDigit, Half, Join, IsHexDigit;
    forall i | 0 <= i < |hex| ensures Encode(Decode(hex))[i] == hex[i] {
      var k := i / 2;
      Halves(DigitValue(hex[2 * k]), DigitValue(hex[2 * k + 1]));
      HexDigitOfValue(hex[i]);
      assert i == 2 * k || i == 2 * k + 1;
    }
  }

  lemma DecodeOfEncode(bytes: Buffer)
    ensures Decode(Encode(bytes)) == bytes
  {
    hide DigitValue, HexDigit, Half, Join, IsHexDigit;
    var hex := Encode(bytes);
    forall k | 0 <= k < |bytes| ensures Decode(hex)[k] == bytes[k] {
      assert (2 * k) / 2 == k && (2 * k + 1) / 2 == k;
      assert DigitValue(hex[2 * k]) == Half(bytes[k], 0) && DigitValue(hex[2 * k + 1]) == Half(bytes[k], 1);
      JoinHalves(bytes[k]);
    }
  }

  // ----- dispense commands

  /** The number of cells in a row of the machine. */
  function Cells(row: Byte): nat {
    if row <= 6 then 5 else if row <= 8 then 4 else if row == 9 then 3 else 0
  }

  /** `validDispenseCommand` */
  method ValidDispenseCommand(bytesHex: string) returns (valid: bool)
    ensures valid <==> IsDispenseCommand(bytesHex)
  {
    hide LowerAll, Decode, DigitValue, Register;
    var normalized := NormalizeHex(bytesHex);
    if normalized.None? || |normalized.value| != 8 || normalized.value[..2] != "55" {
      NotACommand(bytesHex);
      return false;
    }
    var bytes := Decode(normalized.value);
    var maxCell := Cells(bytes[1]);
    var crc := Crc8([bytes[1], bytes[2]]);
    CommandBytes(normalized.value);
    CommandIff(bytesHex);
    valid := bytes[1] >= 1 && bytes[2] >= 1 && (bytes[2] as int) <= maxCell && crc == bytes[3];
  }

  predicate IsCell(row: Byte, cell: Byte) {
    1 <= (row as int) <= 9 && 1 <= (cell as int) <= Cells(row)
  }

  /** The command that dispenses from a cell. */
  function Command(row: Byte, cell: Byte): (bytes: Buffer)
    ensures |bytes| == 4
  {
    [0x55, row, cell, AsByte(Register(0, [row, cell]))]
  }

  /** The text is, up to letter case, the command of some cell of the machine. */
  ghost predicate IsDispenseCommand(text: string) {
    exists row: Byte, cell: Byte :: IsCommandFor(text, row, cell)
  }

  predicate IsCommandFor(text: string, row: Byte, cell: Byte) {
    IsCell(row, cell) && LowerAll(text) == Encode(Command(row, cell))
  }

  lemma StartByte()
    ensures Half(0x55, 0) == 5 && Half(0x55, 1) == 5 && Join(5, 5) == 0x55 && DigitValue('5') == 5
  {
  }

  lemma CommandBytes(hex: string)
    requires IsHex(hex) && |hex| == 8
    ensures hex[..2] == "55" <==> Decode(hex)[0] == 0x55
  {
    hide DigitValue, Join, Half;
    assert Decode(hex)[0] == Join(DigitValue(hex[0]), DigitValue(hex[1]));
    Halves(DigitValue(hex[0]), DigitValue(hex[1]));
    HexDigitOfValue(hex[0]);
    HexDigitOfValue(hex[1]);
    StartByte();
    assert hex[..2] == [hex[0], hex[1]];
  }

  lemma NotACommand(text: string)
    requires NormalizeHex(text).None? || |text| != 8 || LowerAll(text)[..2] != "55"
    ensures !IsDispenseCommand(text)
  {
    hide LowerAll, Register;
    forall row: Byte, cell: Byte ensures !IsCommandFor(text, row, cell) {
      if IsCommandFor(text, row, cell) {
        DecodeOfEncode(Command(row, cell));
        CommandBytes(LowerAll(text));
      }
    }
  }

  lemma CommandIff(text: string)
    requires NormalizeHex(text).Some? && |text| == 8 && LowerAll(text)[..2] == "55"
    ensures var bytes := Decode(LowerAll(text));
            IsDispenseCommand(text) <==> IsCell(bytes[1], bytes[2]) && bytes[3] == AsByte(Register(0, [bytes[1], bytes[2]]))
  {
    hide LowerAll, Register, Decode, Encode, IsCell;
    var hex := LowerAll(text);
    var bytes := Decode(hex);
    CommandBytes(hex);
    EncodeOfDecode(hex);
    if IsCell(bytes[1], bytes[2]) && bytes[3] == AsByte(Register(0, [bytes[1], bytes[2]])) {
      assert bytes == Command(bytes[1], bytes[2]);
      assert IsCommandFor(text, bytes[1], bytes[2]);
    }
    forall row: Byte, cell: Byte | IsCommandFor(text, row, cell) ensures bytes == Command(row, cell) {
      DecodeOfEncode(Command(row, cell));
    }
  }

  predicate AgreeExceptAt(s: Buffer, t: Buffer, i: nat)
    requires |s| == |t|
  {
    forall k :: 0 <= k < |s| && k != i ==> s[k] == t[k]
  }

  /** Two commands that agree in three bytes are equal. */
  lemma CommandsDifferTwice(row: Byte, cell: Byte, row': Byte, cell': Byte, i: nat)
    requires i < 4 && AgreeExceptAt(Command(row, cell), Command(row', cell'), i)
    ensures row == row' && cell == cell'
  {
    hide Register;
    var s, t := Command(row, cell), Command(row', cell');
    assert i != 3 ==> s[3] == t[3];
    assert i != 2 ==> s[2] == t[2];
    assert i != 1 ==> s[1] == t[1];
    if 0 < i < 3 && s[i] != t[i] {
      OneByteIsDetected([row, cell], [row', cell'], i - 1);
    }
  }

  /** Changing one byte of an accepted command makes it refused. */
  lemma OneByteTamperIsRefused(a: string, b: string, i: nat)
    requires IsDispenseCommand(a) && |b| == 8 && IsHex(LowerAll(b)) && i < 4
    requires |a| == 8 && IsHex(LowerAll(a)) && Decode(LowerAll(a)) != Decode(LowerAll(b))
    requires AgreeExceptAt(Decode(LowerAll(a)), Decode(LowerAll(b)), i)
    ensures !IsDispenseCommand(b)
  {
    hide LowerAll, Decode, Encode, Command, AgreeExceptAt, IsCell;
    var row: Byte, cell: Byte :| IsCommandFor(a, row, cell);
    DecodeOfEncode(Command(row, cell));
    forall row': Byte, cell': Byte ensures !IsCommandFor(b, row', cell') {
      if IsCommandFor(b, row', cell') {
        DecodeOfEncode(Command(row', cell'));
        CommandsDifferTwice(row, cell, row', cell', i);
      }
    }
  }

  // ----- repeated frames

  /** A decoded controller event. */
  datatype Event = Event(code: string, atMs: int, sequence: int)

  function Matching(events: seq<Event>, code: string): seq<Event> {
    if events == [] then []
    else if events[|events| - 1].code == code then Matching(events[..|events| - 1], code) + [events[|events| - 1]]
    else Matching(events[..|events| - 1], code)
  }

  function Flatten(groups: seq<seq<Event>>): seq<Event> {
    if groups == [] then [] else Flatten(groups[..|groups| - 1]) + groups[|groups| - 1]
  }

  predicate IsFar(before: Event, after: Event, windowMs: int) {
    after.atMs - before.atMs > windowMs
  }

  /** A nonempty group whose frames follow each other within the window. */
  predicate IsRepetition(group: seq<Event>, windowMs: int) {
    group != [] && forall k :: 0 < k < |group| ==> !IsFar(group[k - 1], group[k], windowMs)
  }

  predicate AllRepetitions(groups: seq<seq<Event>>, windowMs: int) {
    forall g :: 0 <= g < |groups| ==> IsRepetition(groups[g], windowMs)
  }

  /** A group starts too late to belong to the group before it. */
  predicate StartsAnew(before: seq<Event>, group: seq<Event>, windowMs: int) {
    before != [] && group != [] && IsFar(before[|before| - 1], group[0], windowMs)
  }

  predicate AllStartAnew(groups: seq<seq<Event>>, windowMs: int) {
    forall g :: 0 < g < |groups| ==> StartsAnew(groups[g - 1], groups[g], windowMs)
  }

  /** The cut of a list of frames into its longest repetitions. */
  predicate IsGrouping(groups: seq<seq<Event>>, frames: seq<Event>, windowMs: int) {
    && Flatten(groups) == frames
    && AllRepetitions(groups, windowMs)
    && AllStartAnew(groups, windowMs)
  }

  function AddFrame(groups: seq<seq<Event>>, frame: Event, windowMs: int): seq<seq<Event>>
    requires AllRepetitions(groups, windowMs)
  {
    var n := |groups| - 1;
    if n < 0 || IsFar(LastOf(groups[n], windowMs), frame, windowMs) then groups + [[frame]] else groups[n := groups[n] + [frame]]
  }

  function LastOf(group: seq<Event>, windowMs: int): Event
    requires IsRepetition(group, windowMs)
  {
    group[|group| - 1]
  }

  lemma AddedFrame(groups: seq<seq<Event>>, frames: seq<Event>, frame: Event, windowMs: int)
    requires IsGrouping(groups, frames, windowMs)
    ensures IsGrouping(AddFrame(groups, frame, windowMs), frames + [frame], windowMs)
  {
    hide IsFar, StartsAnew, Flatten;
    var more := AddFrame(groups, frame, windowMs);
    var n := |groups| - 1;
    if |more| > |groups| {
      NewGroup(groups, frame, windowMs);
      FlattenAdd(groups, [frame]);
    } else {
      LongerGroup(groups[n], frame, windowMs);
      LastGrows(groups, frame, windowMs);
      FlattenLast(groups);
      FlattenLast(more);
      assert more[..n] == groups[..n];
    }
  }

  lemma NewGroup(groups: seq<seq<Event>>, frame: Event, windowMs: int)
    requires AllRepetitions(groups, windowMs) && AllStartAnew(groups, windowMs)
    requires groups == [] || IsFar(LastOf(groups[|groups| - 1], windowMs), frame, windowMs)
    ensures AllRepetitions(groups + [[frame]], windowMs) && AllStartAnew(groups + [[frame]], windowMs)
  {
    hide IsFar;
  }

  lemma LongerGroup(group: seq<Event>, frame: Event, windowMs: int)
    requires IsRepetition(group, windowMs) && !IsFar(LastOf(group, windowMs), frame, windowMs)
    ensures IsRepetition(group + [frame], windowMs)
  {
    hide IsFar;
  }

  lemma LastGrows(groups: seq<seq<Event>>, frame: Event, windowMs: int)
    requires AllStartAnew(groups, windowMs) && groups != [] && groups[|groups| - 1] != []
    ensures var n := |groups| - 1; AllStartAnew(groups[n := groups[n] + [frame]], windowMs)
  {
    var n := |groups| - 1;
    var more := groups[n := groups[n] + [frame]];
    forall g | 0 < g < |more| ensures StartsAnew(more[g - 1], more[g], windowMs) {
      assert StartsAnew(groups[g - 1], groups[g], windowMs);
    }
  }

  lemma FlattenLast(groups: seq<seq<Event>>)
    requires groups != []
    ensures Flatten(groups) == Flatten(groups[..|groups| - 1]) + groups[|groups| - 1]
  {
  }

  lemma FlattenAdd(groups: seq<seq<Event>>, group: seq<Event>)
    ensures Flatten(groups + [group]) == Flatten(groups) + group
  {
    assert (groups + [group])[..|groups|] == groups;
  }

  /** What `collapseRepeated` returns: frames as they are, or grouped. */
  datatype Collapsed = Frames(frames: seq<Event>) | Groups(groups: seq<seq<Event>>)

  /** `collapseRepeated` */
  method CollapseRepeated(events: seq<Event>, code: string, repeatedFrameWindowMs: int) returns (r: Collapsed)
    ensures code in {"F0", "F1", "F2"} ==> r.Groups? && IsGrouping(r.groups, Matching(events, code), repeatedFrameWindowMs)
    ensures code !in {"F0", "F1", "F2"} ==> r == Frames(Matching(events, code))
  {
    hide IsGrouping, Matching;
    var matching := Matching(events, code);
    if code !in {"F0", "F1", "F2"} {
      return Frames(matching);
    }
    var groups: seq<seq<Event>> := [];
    NoGroups(repeatedFrameWindowMs);
    for i := 0 to |matching|
      invariant IsGrouping(groups, matching[..i], repeatedFrameWindowMs)
    {
      var entry := matching[i];
      var n := |groups| - 1;
      AddedFrame(groups, matching[..i], entry, repeatedFrameWindowMs);
      assert matching[..i + 1] == matching[..i] + [entry];
      LastGroup(groups, matching[..i], repeatedFrameWindowMs);
      if n < 0 || entry.atMs - groups[n][|groups[n]| - 1].atMs > repeatedFrameWindowMs {
        groups := groups + [[entry]];
      } else {
        groups := groups[n := groups[n] + [entry]];
      }
    }
    assert matching[..|matching|] == matching;
    r := Groups(groups);
  }

  lemma NoGroups(windowMs: int)
    ensures IsGrouping([], [], windowMs)
  {
  }

  lemma LastGroup(groups: seq<seq<Event>>, frames: seq<Event>, windowMs: int)
    requires IsGrouping(groups, frames, windowMs)
    ensures AllRepetitions(groups, windowMs)
    ensures groups != [] ==> groups[|groups| - 1] != []
  {
  }

  // ----- the cut is the only one

  /** The cut without its last frame. */
  function DropLast(groups: seq<seq<Event>>): seq<seq<Event>>
    requires groups != [] && groups[|groups| - 1] != []
  {
    var n := |groups| - 1;
    if |groups[n]| == 1 then groups[..n] else groups[n := groups[n][..|groups[n]| - 1]]
  }

  lemma DroppedFrame(groups: seq<seq<Event>>, frames: seq<Event>, windowMs: int)
    requires IsGrouping(groups, frames, windowMs) && groups != []
    ensures groups[|groups| - 1] != [] && frames != []
    ensures IsGrouping(DropLast(groups), frames[..|frames| - 1], windowMs)
    ensures groups == AddFrame(DropLast(groups), frames[|frames| - 1], windowMs)
  {
    hide Flatten, StartsAnew, IsFar;
    var n := |groups| - 1;
    var last, fewer := groups[n], groups[..n];
    assert IsRepetition(last, windowMs);
    assert n > 0 ==> IsRepetition(groups[n - 1], windowMs);
    FlattenLast(groups);
    assert frames[|frames| - 1] == last[|last| - 1];
    AllButLast(groups, windowMs);
    if |last| == 1 {
      assert groups == fewer + [last];
      SingleFrame(groups, frames[|frames| - 1], windowMs);
    } else {
      var shorter := last[..|last| - 1];
      assert last == shorter + [last[|last| - 1]];
      ShorterGroup(last, windowMs);
      LastShrinks(groups, windowMs);
      FlattenAdd(fewer, shorter);
      assert groups[n := shorter] == fewer + [shorter];
    }
  }

  lemma AllButLast(groups: seq<seq<Event>>, windowMs: int)
    requires AllRepetitions(groups, windowMs) && AllStartAnew(groups, windowMs) && groups != []
    ensures AllRepetitions(groups[..|groups| - 1], windowMs) && AllStartAnew(groups[..|groups| - 1], windowMs)
  {
    hide IsRepetition, StartsAnew;
  }

  lemma SingleFrame(groups: seq<seq<Event>>, frame: Event, windowMs: int)
    requires groups != [] && groups[|groups| - 1] == [frame]
    requires AllRepetitions(groups, windowMs) && AllStartAnew(groups, windowMs)
    ensures AllRepetitions(groups[..|groups| - 1], windowMs)
    ensures groups == AddFrame(groups[..|groups| - 1], frame, windowMs)
  {
    var n := |groups| - 1;
    AllButLast(groups, windowMs);
    if n > 0 {
      assert StartsAnew(groups[n - 1], groups[n], windowMs);
    }
    assert groups == groups[..n] + [[frame]];
  }

  lemma ShorterGroup(group: seq<Event>, windowMs: int)
    requires IsRepetition(group, windowMs) && |group| > 1
    ensures IsRepetition(group[..|group| - 1], windowMs)
    ensures !IsFar(group[|group| - 2], group[|group| - 1], windowMs)
  {
    hide IsFar;
  }

  lemma LastShrinks(groups: seq<seq<Event>>, windowMs: int)
    requires AllStartAnew(groups, windowMs) && groups != [] && |groups[|groups| - 1]| > 1
    ensures var n := |groups| - 1; AllStartAnew(groups[n := groups[n][..|groups[n]| - 1]], windowMs)
  {
    var n := |groups| - 1;
    var fewer := groups[n := groups[n][..|groups[n]| - 1]];
    forall g | 0 < g < |fewer| ensures StartsAnew(fewer[g - 1], fewer[g], windowMs) {
      assert StartsAnew(groups[g - 1], groups[g], windowMs);
    }
  }

  /** A list of frames has only one grouping. */
  lemma {:induction false} GroupingIsUnique(a: seq<seq<Event>>, b: seq<seq<Event>>, frames: seq<Event>, windowMs: int)
    requires IsGrouping(a, frames, windowMs) && IsGrouping(b, frames, windowMs)
    ensures a == b
    decreases |frames|
  {
    hide IsGrouping;
    EmptyGrouping(a, frames, windowMs);
    EmptyGrouping(b, frames, windowMs);
    if a != [] {
      DroppedFrame(a, frames, windowMs);
      DroppedFrame(b, frames, windowMs);
      GroupingIsUnique(DropLast(a), DropLast(b), frames[..|frames| - 1], windowMs);
    }
  }

  lemma EmptyGrouping(groups: seq<seq<Event>>, frames: seq<Event>, windowMs: int)
    requires IsGrouping(groups, frames, windowMs)
    ensures groups == [] <==> frames == []
  {
    if groups != [] {
      assert IsRepetition(groups[|groups| - 1], windowMs);
    }
  }

  /** There is one group exactly when there are frames and none is late. */
  lemma OneGroupIffRepetition(groups: seq<seq<Event>>, frames: seq<Event>, windowMs: int)
    requires IsGrouping(groups, frames, windowMs)
    ensures |groups| == 1 <==> IsRepetition(frames, windowMs)
  {
    hide IsFar;
    if |groups| == 1 {
      assert groups == [] + [groups[0]];
      FlattenAdd([], groups[0]);
      assert IsRepetition(groups[0], windowMs);
    }
    if IsRepetition(frames, windowMs) {
      FlattenAdd([], frames);
      assert [] + [frames] == [frames];
      assert IsGrouping([frames], frames, windowMs);
      GroupingIsUnique(groups, [frames], frames, windowMs);
    }
  }
}
