# Thermocouple firmware console, modelled in Dafny

This project models the console-side logic of a TM4C123 thermocouple reader.
The firmware talks to a terminal over UART0 and to an ADS1115 converter over I2C.

- `uart0.dfy` (module `Uart0`) models UART0.c:
  - the field tokenizer `parseFields` over the record `USER_DATA`: its line buffer and its parallel `fieldPosition`/`fieldType` table, kept as a class with arrays;
  - the typed field accessors `getFieldInteger` and `getFieldString`;
  - decimal output `putiUart0` (digit extraction, length scan, in-place reversal) and `putsUart0`;
  - the divisor arithmetic of `setUart0BaudRate`.
- `i2c_utility.dfy` (module `I2cUtility`) models i2c_utility.c:
  - the line editor `getsUart0`, over the received bytes given as a sequence;
  - the two ADS1115 configuration-byte edits in `main`;
  - the assembly of a 16-bit conversion result from the two bytes read back.

Each loop of the source is a method with loop invariants. Each method is proved against a specification function over sequences:

- `FieldsBefore`, `Stop` and `Fields` give the field table of a line.
- `Terminated` gives the buffer after the scan.
- `FieldText` gives the text of a field.
- `DecimalValue` and `DecimalString` give the two directions of decimal conversion.
- `Edited` gives the line the editor keeps.

Lemmas then state what the firmware promises about those functions: increasing offsets, exact field openings, kinds, round trips, and what editing does.

## Model

| member | source | states |
|---|---|---|
| Uart0.FieldsBefore | UART0.c:141-171 | the fields opening below offset n number at most n, and each opens below n |
| Uart0.StopFrom | UART0.c:141 | the scan stops at the first offset holding a terminator, reaching MAX_CHARS or with MAX_FIELDS fields before it, and goes on at every offset before that |
| Uart0.FieldsIncreasing | UART0.c:146-151 | recorded field offsets are strictly increasing |
| Uart0.FieldsExactly | UART0.c:137-163 | an offset is recorded exactly when a letter or digit follows the line start or a delimiter, at the index counting the fields before it, with that character's kind |
| Uart0.FieldKinds | UART0.c:144-160 | every entry opens a field; its tag is 'a' iff its first character is a letter and 'n' iff it is a digit |
| Uart0.RunIsOneField | UART0.c:144-165 | a run of letters and digits without a delimiter opens no field after its first character, even where the kind changes |
| Uart0.FieldsPrefix | UART0.c:141-171 | the table over a shorter prefix of the line is a prefix of the table over a longer one |
| Uart0.FieldCountBounded | UART0.c:141 | the tokenizer records at most MAX_FIELDS fields |
| Uart0.ScanStoppedAt | UART0.c:141 | a loop that exits at i with no terminator before i, below the field limit one step earlier, stops where Stop says |
| Uart0.ScanOutcome | UART0.c:141-171 | the loop exit state gives Stop, Fields and a buffer Terminated at Stop |
| Uart0.ScannedStep | UART0.c:167-171 | scanning one more character overwrites it with a terminator iff it is a delimiter |
| Uart0.NextNull | UART0.c:181 | the offset found is the first terminator from the field's start |
| Uart0.DecimalValueAppend | UART0.c:183 | each further digit multiplies the value so far by ten and adds its digit |
| Uart0.DecimalValueBounds | UART0.c:181-184 | an all-digit text of length n has a value in [0, 10^n) |
| Uart0.NineDigitsFit | UART0.c:179-184 | nine digits or fewer never overflow the int32 accumulator |
| Uart0.LeadingDigitPositive | UART0.c:181-184 | a digit string whose first digit is not '0' has a positive value |
| Uart0.DecimalValueExample | UART0.c:181-184 | the field "042" reads as 42 |
| Uart0.RunText | UART0.c:167-171 | a field's text ends at or before the next overwritten delimiter and is the received text from the field's start |
| Uart0.RunIsAlphanumeric | UART0.c:167-171 | a field's text up to an overwritten delimiter is a non-empty run of letters and digits |
| Uart0.ParsedFieldText | UART0.c:141-171 | after the scan, every field's text but the last is a non-empty letter/digit run, and so is the last one's when the line ended at the stop |
| Uart0.LimitOverrun | UART0.c:141 | when the field limit stops the scan, the last field opens right before the stop and its text runs on through every delimiter of the unscanned rest of the line up to the next terminator |
| Uart0.LastFieldOverrun | UART0.c:141 | as written: the same, stated for the tokenizer's own Stop and Fields |
| Uart0.OverrunExample | UART0.c:141 | on "a a a a a a" the scan stops at 9 and the fifth field reads "a a" |
| Uart0.OverrunLongerFieldExample | UART0.c:141 | on "a a a a ab c" the scan stops at 9, inside the fifth field, and that field reads "ab c" |
| Uart0.TwoFieldsExample | UART0.c:141-171 | "abc 123" gives a word field at 0 and a number field at 4 |
| Uart0.AdjacentRunsExample | UART0.c:144-165 | "abc123" gives a single word field: a letter-to-digit change opens no field |
| Uart0.BlankLineExample | UART0.c:141-171 | a line of blanks gives no field |
| Uart0.DelimiterFreeOneField | UART0.c:144-165 | a stretch without a delimiter opens at most one field |
| Uart0.RescanFrom | UART0.c:141-171 | a second scan of a tokenized line stops no later than the first and meets no delimiter |
| Uart0.RetokenizeAtMostOneField | UART0.c:141-171 | tokenizing destroys the line: scanning the tokenized buffer again finds at most one field and stops no later |
| Uart0.EndFromIs | UART0.c:141 | without the field limit, the scan stops at the first terminator or at MAX_CHARS |
| Uart0.CorrectedScanOutcome | UART0.c:141-171 | the corrected loop's exit state gives End, CorrectedFields and a buffer Terminated at End |
| Uart0.ExtendTable | UART0.c:146-151 | the corrected table stays the first count fields found when one more is found |
| Uart0.CorrectedFieldText | UART0.c:141-171 | corrected: the text of every recorded field, the last included, is a non-empty run of letters and digits |
| Uart0.UserData.RecordField | UART0.c:148-150 | recording a field appends it to the table held by the arrays and leaves later entries alone |
| Uart0.UserData.ParseFields | UART0.c:134-173 | fieldCount and the arrays hold Fields of the received line, later entries keep their values, and the buffer is that line Terminated at Stop |
| Uart0.UserData.ParseFieldsCorrected | UART0.c:134-173 | corrected: the table holds the first MAX_FIELDS fields and every delimiter up to the end of the line is a terminator |
| Uart0.UserData.GetFieldInteger | UART0.c:176-187 | for an all-digit field of at most nine digits, the result is its decimal value, within int32 |
| Uart0.UserData.GetFieldString | UART0.c:204-221 | nothing for a field number of MAX_FIELDS or more, and otherwise exactly the field's text up to its terminator |
| Uart0.ReverseIndex | UART0.c:259-265 | Reverse puts the element k from the end at position k |
| Uart0.LsbDigitsLength | UART0.c:237-247 | a number below 10^k yields at most k digits |
| Uart0.LsbDigitsShape | UART0.c:237-247 | every extracted character is a digit and the most significant one is not '0' |
| Uart0.LsbDigitsValue | UART0.c:237-265 | the extracted digits read back most significant first give the number |
| Uart0.DecimalRoundTrip | UART0.c:225-268 | reading back what putiUart0 sends gives the number again |
| Uart0.DecimalStringCanonical | UART0.c:232-265 | the representation is a non-empty digit string opening with '0' only for zero |
| Uart0.CanonicalRoundTrip | UART0.c:225-268 | every digit string without leading zeros is the representation of its own value |
| Uart0.DecimalStringAppend | UART0.c:237-247 | appending a digit to a positive number's representation represents ten times the number plus that digit |
| Uart0.DecimalStringExample | UART0.c:225-268 | 42 is sent as "42" |
| Uart0.PutString | UART0.c:77-82 | the characters sent are those from the start of the string up to its first terminator |
| Uart0.ReverseInPlace | UART0.c:255-265 | the swap loop reverses the prefix of the given length and leaves the rest alone |
| Uart0.StoreLsbDigits | UART0.c:228-247 | the zeroed buffer receives at most ten digits, least significant first ("0" for zero), and stays zero after them |
| Uart0.TextLength | UART0.c:249-253 | the length found is the offset of the first terminator |
| Uart0.PutInteger | UART0.c:225-268 | for 0 <= num <= INT32_MAX the characters sent are num's decimal representation |
| Uart0.BaudRateDivisors | UART0.c:50-57 | the fraction is below 64, and together the two registers hold half the rounded divisor in 128ths, computed with uint32 wrap-around |
| Uart0.BaudRateRounds | UART0.c:52-57 | without wrap-around the registers hold fcyc / (16 baud) in 64ths, rounded to the nearest |
| Uart0.BaudRateExample | UART0.c:42-43 | 115200 baud at 40 MHz gives 21 and 45, the values initUart0 writes |
| I2cUtility.GetsUart0 | i2c_utility.c:62-80 | input ends at the first carriage return, or at the first byte after the line holds size characters; the edited line is in str[..count] with count <= size and a terminator after it; without an ending byte all input is consumed |
| I2cUtility.EditedPrintable | i2c_utility.c:75-76 | only bytes from ' ' to '~' are ever stored |
| I2cUtility.PrintableVerbatim | i2c_utility.c:75-76 | printable bytes are stored as they arrive |
| I2cUtility.EditedAppend | i2c_utility.c:67-78 | editing with two runs of bytes in turn is editing with both together |
| I2cUtility.BackspaceErases | i2c_utility.c:73-76 | a backspace or delete right after a printable byte erases it |
| I2cUtility.BackspaceOnEmpty | i2c_utility.c:73-74 | a backspace or delete on an empty line changes nothing |
| I2cUtility.ConfigFieldsDetermine | i2c_utility.c:143-151 | a configuration byte is fixed by its multiplexer field, its gain field and its bits 7 and 0 |
| I2cUtility.Tmp36Config | i2c_utility.c:143-151 | multiplexer 100 (AIN0 to ground), gain 010, bits 7 and 0 as read, second byte as read |
| I2cUtility.ThermocoupleConfig | i2c_utility.c:186-193 | multiplexer 011 (AIN2 against AIN3), gain 111, bits 7 and 0 as read, second byte as read |
| I2cUtility.RawSample | i2c_utility.c:165 | as written (also line 203): a value in [0, 65536) whose high byte is the first byte read and whose low byte is the second |
| I2cUtility.SignedSample | i2c_utility.c:165-170 | corrected: a value in [-32768, 32768) with the same 16 bits, negative exactly when the first byte's top bit is set |
| I2cUtility.SampleReadings | i2c_utility.c:165-170 | the two readings agree below half scale; from there on the unsigned one is 65536 above the signed one |
| I2cUtility.NegativeReadingExample | i2c_utility.c:165 | bytes 0xFF 0xFF are -1 signed but 65535 as written |

## Left out

- Register access is not modelled: `initUart0`, the register writes of `setUart0BaudRate`, `initHw` and the I2C transfers. Only the arithmetic is.
- The busy waits of `putcUart0`, `getcUart0` and `kbhitUart0` are left out. Received bytes are an input sequence, and sent characters are a returned sequence.
- Floating-point work is left out: `getFieldFloat`, the millivolt and temperature conversions, the thermocouple tables and `sprintf` formatting.
- `asciiToUint8` is left out: it is a wrapper around `sscanf`.
- `waitMicrosecond` and `_delay_cycles` are left out: they are foreign calls with no visible logic.
- The commented-out `getsUart0` in UART0.c is dead code and is not modelled.
- UART0.h is not part of this model. MAX_CHARS = 80 comes from i2c_utility.c:97. MAX_FIELDS = 5 is assumed. The line buffer has MAX_CHARS + 1 cells, since the loop test reads `buffer[MAX_CHARS]`.
- Uart0.UserData.ParseFields counts in a local and stores it in `fieldCount` when the loop ends. The source increments `fieldCount` itself; the final state is the same.
- Uart0.UserData.GetFieldInteger: modelled only for all-digit fields of at most nine digits. int32 overflow and non-digit characters are excluded by precondition.
- Uart0.UserData.GetFieldString: the source returns a pointer to a local array, which dangles. The model returns the copied characters as a sequence.
- Uart0.PutInteger: negative numbers are excluded. With them, the C remainder yields characters below '0'.
- Uart0.PutString: requires the terminator within 255 characters, since the source's 8-bit index would wrap after that.
- Uart0.BaudRateDivisors: the 16-bit width of the integer-divisor register is not modelled.
- I2cUtility.GetsUart0: the result says nothing about cells past the terminator. A run without an ending byte is reported as not done, where the firmware would go on waiting.
- The conversion bytes are numbers in [0, 256) (`I2cUtility.byte`). The configuration bytes are 8-bit vectors.

## Findings

| source | as written | input that shows it | evidently intended | confidence | as-written member | corrected member |
|---|---|---|---|---|---|---|
| UART0.c:141 | the loop also stops as soon as MAX_FIELDS fields are recorded, before the delimiter after the last field is overwritten, so that field's text runs on into the rest of the line | the line "a a a a a a": the scan stops at offset 9 and the fifth field reads "a a"; on "a a a a ab c" it reads "ab c" | every field's text ends at its own delimiter: delimiters are overwritten up to the end of the line, and recording stops at MAX_FIELDS | high; not executed | Uart0.LastFieldOverrun | Uart0.UserData.ParseFieldsCorrected, Uart0.CorrectedFieldText |
| i2c_utility.c:165 | the two result bytes are combined as an unsigned number in [0, 65536), on lines 165 and 203 | bytes 0xFF 0xFF, one count below zero, read as 65535 | the converter's result is signed 16-bit two's complement, as the scaling by 32768 counts for full scale implies | medium; not executed | I2cUtility.RawSample | I2cUtility.SignedSample |
