/** The console and ADC logic of i2c_utility.c: the line editor that reads a
    command, the ADS1115 configuration bytes for the two sensors, and the
    assembly of a conversion result from the two bytes read back. */
module I2cUtility {

  const BACKSPACE: char := 8 as char
  const DELETE: char := 127 as char
  const CARRIAGE_RETURN: char := 13 as char

  // ---------------------------------------------------------------------------
  // The line editor
  // ---------------------------------------------------------------------------

  /** The bytes getsUart0 stores: space up to '~'. */
  predicate IsPrintable(c: char)
  {
    ' ' <= c < DELETE
  }

  /** A byte that does not end input, applied to the line: backspace or delete
      first drops the last character when there is one, and a printable byte
      is then appended. Every other byte leaves the line as it is. */
  function Edit(line: seq<char>, c: char): seq<char>
  {
    var kept := if (c == BACKSPACE || c == DELETE) && |line| > 0 then line[..|line| - 1] else line;
    if IsPrintable(c) then kept + [c] else kept
  }

  /** The line after editing `line` further with the bytes of `bytes`, in order. */
  function EditedFrom(line: seq<char>, bytes: seq<char>): seq<char>
  {
    if bytes == [] then line else Edit(EditedFrom(line, bytes[..|bytes| - 1]), bytes[|bytes| - 1])
  }

  /** The line after editing an empty line with every byte of `bytes`. */
  function Edited(bytes: seq<char>): seq<char>
  {
    EditedFrom([], bytes)
  }

  /** Byte `k` ends input: it is a carriage return, or the line the bytes before
      it left behind already holds `size` characters. */
  predicate EndsAt(input: seq<char>, k: nat, size: nat)
    requires k < |input|
  {
    input[k] == CARRIAGE_RETURN || |Edited(input[..k])| == size
  }

  /** None of the first `m` bytes ends input. */
  predicate NoEndBefore(input: seq<char>, m: nat, size: nat)
    requires m <= |input|
  {
    forall k :: 0 <= k < m ==> !EndsAt(input, k, size)
  }

  /** getsUart0 over the bytes `input` as they arrive. `used` counts the bytes
      read. With `done` the byte at `used - 1` ended input and none before it
      did; the line edited from the bytes before it, at most `size` long, is in
      `str[..count]` with a terminator at `str[count]`. Without `done` every
      byte was read and none ended input: the firmware is still waiting. */
  method GetsUart0(str: array<char>, size: nat, input: seq<char>)
      returns (count: nat, used: nat, done: bool)
    requires size < 256 && size < str.Length
    modifies str
    ensures used <= |input|
    ensures done ==> 0 < used && EndsAt(input, used - 1, size) && NoEndBefore(input, used - 1, size)
    ensures !done ==> used == |input| && NoEndBefore(input, used, size)
    ensures var line := Edited(input[..if done then used - 1 else used]);
      count == |line| <= size && str[..count] == line
    ensures done ==> str[count] == '\0'
  {
    count := 0;
    used := 0;
    var end := false;
    ghost var line: seq<char> := [];
    while !end && used < |input|
      invariant used <= |input|
      invariant !end ==> NoEndBefore(input, used, size) && line == Edited(input[..used])
      invariant end ==> (0 < used && EndsAt(input, used - 1, size) &&
        NoEndBefore(input, used - 1, size) && line == Edited(input[..used - 1]))
      invariant count == |line| <= size
      invariant forall k :: 0 <= k < count ==> str[k] == line[k]
      decreases |input| - used
    {
      var c := input[used];
      assert input[..used + 1] == input[..used] + [c];
      used := used + 1;
      end := c == CARRIAGE_RETURN || count == size;
      if !end {
        if (c == BACKSPACE || c == DELETE) && count > 0 {
          count := count - 1;
        }
        if ' ' <= c < DELETE {
          str[count] := c;
          count := count + 1;
        }
        line := Edit(line, c);
      }
    }
    done := end;
    if end {
      str[count] := '\0';
    }
    assert str[..count] == line;
  }

  /** The edited line holds only printable bytes: a carriage return, a
      backspace, a delete or a control byte is never stored. */
  lemma {:induction false} EditedPrintable(bytes: seq<char>)
    ensures forall k :: 0 <= k < |Edited(bytes)| ==> IsPrintable(Edited(bytes)[k])
  {
    if bytes != [] {
      var init := bytes[..|bytes| - 1];
      EditedPrintable(init);
      assert Edited(bytes) == Edit(Edited(init), bytes[|bytes| - 1]);
    }
  }

  /** Printable bytes are stored as they arrive. */
  lemma {:induction false} PrintableVerbatim(bytes: seq<char>)
    requires forall k :: 0 <= k < |bytes| ==> IsPrintable(bytes[k])
    ensures Edited(bytes) == bytes
  {
    if bytes != [] {
      var init := bytes[..|bytes| - 1];
      PrintableVerbatim(init);
      assert bytes == init + [bytes[|bytes| - 1]];
    }
  }

  /** Editing with `a` and then `b` is editing with `a + b`. */
  lemma {:induction false} EditedAppend(a: seq<char>, b: seq<char>)
    ensures Edited(a + b) == EditedFrom(Edited(a), b)
    decreases |b|
  {
    if b != [] {
      var b' := b[..|b| - 1];
      assert (a + b)[..|a + b| - 1] == a + b';
      EditedAppend(a, b');
    } else {
      assert a + b == a;
    }
  }

  /** A backspace or a delete right after a printable byte erases it. */
  lemma BackspaceErases(bytes: seq<char>, c: char, erase: char)
    requires IsPrintable(c) && (erase == BACKSPACE || erase == DELETE)
    ensures Edited(bytes + [c, erase]) == Edited(bytes)
  {
    var line := Edited(bytes);
    EditedAppend(bytes, [c, erase]);
    assert [c, erase][..1] == [c];
    assert [c][..0] == [];
    assert EditedFrom(line, [c]) == line + [c];
    assert (line + [c])[..|line|] == line;
  }

  /** A backspace or a delete on an empty line changes nothing. */
  lemma BackspaceOnEmpty(bytes: seq<char>, erase: char)
    requires Edited(bytes) == [] && (erase == BACKSPACE || erase == DELETE)
    ensures Edited(bytes + [erase]) == []
  {
    assert (bytes + [erase])[..|bytes|] == bytes;
  }

  // ---------------------------------------------------------------------------
  // ADS1115 configuration bytes
  // ---------------------------------------------------------------------------

  /** Bits 6..4 of the first configuration byte: the input multiplexer. */
  function Mux(b: bv8): bv8
  {
    (b >> 4) & 7
  }

  /** Bits 3..1 of the first configuration byte: the programmable gain. */
  function Pga(b: bv8): bv8
  {
    (b >> 1) & 7
  }

  /** The bits outside both fields: bit 7 and bit 0. */
  function OtherBits(b: bv8): bv8
  {
    b & 0x81
  }

  /** A configuration byte is determined by its two fields and its other bits. */
  lemma ConfigFieldsDetermine(x: bv8, y: bv8)
    requires Mux(x) == Mux(y) && Pga(x) == Pga(y) && OtherBits(x) == OtherBits(y)
    ensures x == y
  {
  }

  /** The TMP36 configuration: the multiplexer to AIN0 against ground (100) and
      the gain to the 2.048 V range (010), other bits and the second byte as read. */
  method Tmp36Config(current0: bv8, current1: bv8) returns (new0: bv8, new1: bv8)
    ensures Mux(new0) == 4 && Pga(new0) == 2 && OtherBits(new0) == OtherBits(current0)
    ensures new1 == current1
  {
    new1 := current1;
    new0 := current0 & !(7 << 4);
    new0 := new0 | 64;
    new0 := new0 & !(7 << 1);
    new0 := new0 | (1 << 2);
  }

  /** The thermocouple configuration: the multiplexer to AIN2 against AIN3 (011)
      and the gain to the 0.256 V range (111), other bits and the second byte as read. */
  method ThermocoupleConfig(current0: bv8, current1: bv8) returns (new0: bv8, new1: bv8)
    ensures Mux(new0) == 3 && Pga(new0) == 7 && OtherBits(new0) == OtherBits(current0)
    ensures new1 == current1
  {
    new1 := current1;
    new0 := current0 & !(7 << 4);
    new0 := new0 | (16 | 32);
    new0 := new0 | (7 << 1);
  }

  // ---------------------------------------------------------------------------
  // Conversion result
  // ---------------------------------------------------------------------------

  /** A byte of the conversion result as a number. */
  newtype byte = x: int | 0 <= x < 256

  /** The conversion result as main assembles it: the second byte plus the first
      shifted up by eight, read as an unsigned 16-bit number. */
  function RawSample(msb: byte, lsb: byte): (r: nat)
    ensures r < 65536 && r / 256 == msb as int && r % 256 == lsb as int
  {
    lsb as int + msb as int * 256
  }

  /** The same two bytes read as the converter's signed 16-bit result. */
  function SignedSample(msb: byte, lsb: byte): (r: int)
    ensures -32768 <= r < 32768
    ensures r % 65536 == RawSample(msb, lsb)
    ensures r < 0 <==> msb >= 128
  {
    if msb < 128 then RawSample(msb, lsb) else RawSample(msb, lsb) - 65536
  }

  /** The two readings agree below half scale; from there on the unsigned one
      is the signed one plus 65536, beyond the 32768 counts of full scale. */
  lemma SampleReadings(msb: byte, lsb: byte)
    ensures msb < 128 ==> RawSample(msb, lsb) == SignedSample(msb, lsb)
    ensures msb >= 128 ==> RawSample(msb, lsb) == SignedSample(msb, lsb) + 65536 >= 32768
  {
  }

  /** One count below zero, 0xFF 0xFF, comes out as 65535 unsigned. */
  lemma NegativeReadingExample()
    ensures SignedSample(0xFF, 0xFF) == -1 && RawSample(0xFF, 0xFF) == 65535
  {
  }
}
