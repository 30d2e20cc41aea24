/** The console side of UART0.c: the field tokenizer over the received line,
    the typed field accessors, decimal output and the baud-rate divisor. */
module Uart0 {

  /** Characters of the line buffer the tokenizer examines at most. */
  const MAX_CHARS: nat := 80
  /** Capacity of the field table. */
  const MAX_FIELDS: nat := 5

  /** Largest value of the firmware's `int32_t`. */
  const INT32_MAX: int := 0x7FFF_FFFF
  /** Modulus of the firmware's `uint32_t` arithmetic. */
  const UINT32_MOD: int := 0x1_0000_0000

  datatype Option<T> = None | Some(value: T)

  // ---------------------------------------------------------------------------
  // Character classes
  // ---------------------------------------------------------------------------

  predicate IsLetter(c: char) { 'a' <= c <= 'z' || 'A' <= c <= 'Z' }

  predicate IsDigit(c: char) { '0' <= c <= '9' }

  /** Anything that is neither an ASCII letter nor an ASCII digit separates fields. */
  predicate IsDelimiter(c: char) { !IsLetter(c) && !IsDigit(c) }

  /** The tag recorded in the field table for a field whose first character is `c`. */
  function KindOf(c: char): char { if IsLetter(c) then 'a' else 'n' }

  // ---------------------------------------------------------------------------
  // What the tokenizer computes, stated over the line as it was received
  // ---------------------------------------------------------------------------

  /** One entry of the field table: where the field opens and its kind tag. */
  datatype Field = Field(position: nat, kind: char)

  /** Offset `i` opens a field: a letter or digit at the start of the line or
      right after a delimiter. */
  predicate StartsField(s: seq<char>, i: nat)
    requires i < |s|
  {
    !IsDelimiter(s[i]) && (i == 0 || IsDelimiter(s[i - 1]))
  }

  /** The fields that open below offset `n`, in increasing order of offset. */
  function FieldsBefore(s: seq<char>, n: nat): (r: seq<Field>)
    requires n <= |s|
    ensures |r| <= n
    ensures forall k :: 0 <= k < |r| ==> r[k].position < n
    decreases n
  {
    if n == 0 then
      []
    else
      FieldsBefore(s, n - 1) + if StartsField(s, n - 1) then [Field(n - 1, KindOf(s[n - 1]))] else []
  }

  /** The scan goes on past offset `i`: it holds no terminator, lies below MAX_CHARS,
      and fewer than MAX_FIELDS fields open before it. */
  predicate Continues(s: seq<char>, i: nat)
    requires i < |s|
  {
    s[i] != '\0' && i < MAX_CHARS && |FieldsBefore(s, i)| < MAX_FIELDS
  }

  /** Where a scan that has reached offset `i` stops: the first offset from `i` on
      that holds a terminator, equals MAX_CHARS, or has MAX_FIELDS fields before it. */
  function StopFrom(s: seq<char>, i: nat): (j: nat)
    requires MAX_CHARS < |s| && i <= MAX_CHARS
    ensures i <= j <= MAX_CHARS
    ensures !Continues(s, j)
    ensures forall k :: i <= k < j ==> Continues(s, k)
    decreases MAX_CHARS - i
  {
    if !Continues(s, i) then i else StopFrom(s, i + 1)
  }

  /** The offset at which the tokenizer's scan of `s` stops. */
  function Stop(s: seq<char>): nat
    requires MAX_CHARS < |s|
  {
    StopFrom(s, 0)
  }

  /** The field table the tokenizer builds from the line `s`. */
  function Fields(s: seq<char>): seq<Field>
    requires MAX_CHARS < |s|
  {
    FieldsBefore(s, Stop(s))
  }

  /** `t` is the line `s` after a scan that stopped at `stop`: each delimiter
      before `stop` is a terminator, everything else as received. */
  ghost predicate Terminated(t: seq<char>, s: seq<char>, stop: nat)
  {
    |t| == |s| &&
    forall k :: 0 <= k < |s| ==> t[k] == if k < stop && IsDelimiter(s[k]) then '\0' else s[k]
  }

  /** The parallel arrays, read as `pos` and `typ`, hold the entries of `table`
      at its indices, and from |table| on they hold what `pos0` and `typ0` held. */
  ghost predicate TableHolds(pos: seq<nat>, typ: seq<char>, table: seq<Field>,
                             pos0: seq<nat>, typ0: seq<char>)
  {
    |pos| == |pos0| && |typ| == |typ0| && |table| <= |pos| && |table| <= |typ| &&
    (forall k :: 0 <= k < |table| ==> pos[k] == table[k].position && typ[k] == table[k].kind) &&
    (forall k :: |table| <= k < |pos| ==> pos[k] == pos0[k]) &&
    (forall k :: |table| <= k < |typ| ==> typ[k] == typ0[k])
  }

  // ---------------------------------------------------------------------------
  // Properties of the field table
  // ---------------------------------------------------------------------------

  /** Field offsets are strictly increasing. */
  lemma {:induction false} FieldsIncreasing(s: seq<char>, n: nat)
    requires n <= |s|
    ensures forall j, k :: 0 <= j < k < |FieldsBefore(s, n)| ==>
      FieldsBefore(s, n)[j].position < FieldsBefore(s, n)[k].position
  {
    if n > 0 {
      var r, r' := FieldsBefore(s, n), FieldsBefore(s, n - 1);
      FieldsIncreasing(s, n - 1);
      forall j, k | 0 <= j < k < |r|
        ensures r[j].position < r[k].position
      {
        assert r == r' + (if StartsField(s, n - 1) then [Field(n - 1, KindOf(s[n - 1]))] else []);
        assert r[j] == r'[j];
        if k < |r'| {
          assert r[k] == r'[k];
          assert r'[j].position < r'[k].position;
        } else {
          assert r[k].position == n - 1;
          assert r'[j].position < n - 1;
        }
      }
    }
  }

  /** An offset below `n` is recorded exactly when it opens a field: a recorded
      offset opens a field and carries the kind of its character, and a field that
      opens at `i` is recorded at the index that counts the fields before it. */
  lemma {:induction false} FieldsExactly(s: seq<char>, n: nat, i: nat)
    requires i < n <= |s|
    ensures forall k :: 0 <= k < |FieldsBefore(s, n)| && FieldsBefore(s, n)[k].position == i ==>
      StartsField(s, i) && FieldsBefore(s, n)[k].kind == KindOf(s[i])
    ensures StartsField(s, i) ==>
      |FieldsBefore(s, i)| < |FieldsBefore(s, n)| &&
      FieldsBefore(s, n)[|FieldsBefore(s, i)|] == Field(i, KindOf(s[i]))
  {
    var r, r' := FieldsBefore(s, n), FieldsBefore(s, n - 1);
    assert r == r' + (if StartsField(s, n - 1) then [Field(n - 1, KindOf(s[n - 1]))] else []);
    if i < n - 1 {
      FieldsExactly(s, n - 1, i);
      forall k | 0 <= k < |r| && r[k].position == i
        ensures StartsField(s, i) && r[k].kind == KindOf(s[i])
      {
        assert r[k] == r'[k];
      }
    }
  }

  /** Every table entry is a field opening, tagged 'a' exactly when its first
      character is a letter and 'n' exactly when it is a digit. */
  lemma FieldKinds(s: seq<char>, n: nat)
    requires n <= |s|
    ensures forall k :: 0 <= k < |FieldsBefore(s, n)| ==>
      var f := FieldsBefore(s, n)[k];
      f.position < n && StartsField(s, f.position) &&
      (f.kind == 'a' <==> IsLetter(s[f.position])) && (f.kind == 'n' <==> IsDigit(s[f.position]))
  {
    var r := FieldsBefore(s, n);
    forall k | 0 <= k < |r|
      ensures r[k].position < n && StartsField(s, r[k].position)
      ensures r[k].kind == 'a' <==> IsLetter(s[r[k].position])
      ensures r[k].kind == 'n' <==> IsDigit(s[r[k].position])
    {
      FieldsExactly(s, n, r[k].position);
    }
  }

  /** The table over a shorter prefix is a prefix of the table over a longer one. */
  lemma {:induction false} FieldsPrefix(s: seq<char>, m: nat, n: nat)
    requires m <= n <= |s|
    ensures FieldsBefore(s, m) <= FieldsBefore(s, n)
    decreases n - m
  {
    if m < n {
      FieldsPrefix(s, m, n - 1);
    }
  }

  /** A run of letters and digits with no delimiter in it opens at most one field,
      at its first character: a change of kind alone does not split it. */
  lemma RunIsOneField(s: seq<char>, lo: nat, hi: nat, n: nat)
    requires lo < hi <= n <= |s|
    requires forall k :: lo <= k < hi ==> !IsDelimiter(s[k])
    ensures forall k :: 0 <= k < |FieldsBefore(s, n)| ==>
      !(lo < FieldsBefore(s, n)[k].position < hi)
  {
    var r := FieldsBefore(s, n);
    forall k | 0 <= k < |r|
      ensures !(lo < r[k].position < hi)
    {
      if lo < r[k].position < hi {
        FieldsExactly(s, n, r[k].position);
      }
    }
  }

  /** The tokenizer records at most MAX_FIELDS fields. */
  lemma FieldCountBounded(s: seq<char>)
    requires MAX_CHARS < |s|
    ensures |Fields(s)| <= MAX_FIELDS
  {
    var stop := Stop(s);
    if stop == 0 {
      assert FieldsBefore(s, stop) == [];
    } else {
      assert Continues(s, stop - 1);
      assert |FieldsBefore(s, stop)| <= |FieldsBefore(s, stop - 1)| + 1;
    }
  }

  /** A scan that went on at every offset in [i, j) and not at `j` stops at `j`. */
  lemma {:induction false} StopFromIs(s: seq<char>, i: nat, j: nat)
    requires MAX_CHARS < |s| && i <= j <= MAX_CHARS
    requires forall k :: i <= k < j ==> Continues(s, k)
    requires !Continues(s, j)
    ensures StopFrom(s, i) == j
    decreases j - i
  {
    if i < j {
      StopFromIs(s, i + 1, j);
    }
  }

  /** The scan stops at `i` when no terminator lies before `i`, the field limit was
      not reached one offset earlier, and the scan does not go on at `i`. */
  lemma ScanStoppedAt(s: seq<char>, i: nat)
    requires MAX_CHARS < |s| && i <= MAX_CHARS
    requires forall k :: 0 <= k < i ==> s[k] != '\0'
    requires i > 0 ==> |FieldsBefore(s, i - 1)| < MAX_FIELDS
    requires !Continues(s, i)
    ensures Stop(s) == i
  {
    forall k | 0 <= k < i
      ensures Continues(s, k)
    {
      FieldsPrefix(s, k, i - 1);
    }
    StopFromIs(s, 0, i);
  }

  // ---------------------------------------------------------------------------
  // Field text and decimal values
  // ---------------------------------------------------------------------------

  /** Some offset from `p` on holds a terminator. */
  predicate HasNullFrom(t: seq<char>, p: nat)
  {
    exists q :: p <= q < |t| && t[q] == '\0'
  }

  /** The first offset from `p` on that holds a terminator. */
  function NextNull(t: seq<char>, p: nat): (q: nat)
    requires HasNullFrom(t, p)
    ensures p <= q < |t| && t[q] == '\0'
    ensures forall k :: p <= k < q ==> t[k] != '\0'
    decreases |t| - p
  {
    if t[p] == '\0' then p else NextNull(t, p + 1)
  }

  /** The terminator at `q` is the first one from `p` on when none lies between. */
  lemma NextNullAt(t: seq<char>, p: nat, q: nat)
    requires p <= q < |t| && t[q] == '\0'
    requires forall k :: p <= k < q ==> t[k] != '\0'
    ensures HasNullFrom(t, p) && NextNull(t, p) == q
  {
  }

  /** The text of the field that opens at `p`: everything up to the next terminator. */
  function FieldText(t: seq<char>, p: nat): seq<char>
    requires HasNullFrom(t, p)
  {
    t[p..NextNull(t, p)]
  }

  predicate IsDigitString(d: seq<char>)
  {
    forall k :: 0 <= k < |d| ==> IsDigit(d[k])
  }

  /** The value the firmware adds for character `c`: its distance from '0'. */
  function DigitValue(c: char): int
  {
    c as int - '0' as int
  }

  /** The most-significant-first decimal value of `d`: each character multiplies
      what came before by ten and adds its own digit value. */
  function DecimalValue(d: seq<char>): int
  {
    if d == [] then 0 else DecimalValue(d[..|d| - 1]) * 10 + DigitValue(d[|d| - 1])
  }

  function Pow10(n: nat): (r: nat)
    ensures r >= 1
  {
    if n == 0 then 1 else 10 * Pow10(n - 1)
  }

  lemma {:induction false} PowMonotone(m: nat, n: nat)
    requires m <= n
    ensures Pow10(m) <= Pow10(n)
    decreases n
  {
    if m < n {
      PowMonotone(m, n - 1);
    }
  }

  /** A string of `n` digits has a value in [0, 10^n). */
  lemma {:induction false} DecimalValueBounds(d: seq<char>)
    requires IsDigitString(d)
    ensures 0 <= DecimalValue(d) < Pow10(|d|)
  {
    if d != [] {
      DecimalValueBounds(d[..|d| - 1]);
    }
  }

  /** Appending a character extends the value by one decimal place. */
  lemma DecimalValueAppend(d: seq<char>, c: char)
    ensures DecimalValue(d + [c]) == DecimalValue(d) * 10 + DigitValue(c)
  {
    assert (d + [c])[..|d|] == d;
  }

  /** A digit string with a non-zero leading digit has a positive value. */
  lemma {:induction false} LeadingDigitPositive(d: seq<char>)
    requires IsDigitString(d) && d != [] && d[0] != '0'
    ensures DecimalValue(d) > 0
  {
    if |d| > 1 {
      LeadingDigitPositive(d[..|d| - 1]);
    }
  }

  /** Nine digits or fewer always fit in a 32-bit signed integer. */
  lemma NineDigitsFit(d: seq<char>)
    requires IsDigitString(d) && |d| <= 9
    ensures 0 <= DecimalValue(d) <= INT32_MAX
  {
    DecimalValueBounds(d);
    assert Pow10(9) == 1_000_000_000;
    PowMonotone(|d|, 9);
  }

  /** The value getFieldInteger computes for the command "042": 42. */
  lemma DecimalValueExample()
    ensures DecimalValue("042") == 42
  {
    assert "042"[..2] == "04";
    assert "04"[..1] == "0";
  }

  // ---------------------------------------------------------------------------
  // Field text after the scan, and the field limit
  // ---------------------------------------------------------------------------

  /** In a buffer rewritten up to `stop`, the text of a field that opens at `p`
      ends no later than a terminator at `q <= stop`, and consists of the
      letters and digits received from `p` on. */
  lemma RunText(s: seq<char>, t: seq<char>, stop: nat, p: nat, q: nat)
    requires Terminated(t, s, stop)
    requires p <= q <= stop && q < |s| && t[q] == '\0'
    ensures HasNullFrom(t, p) && NextNull(t, p) <= q
    ensures FieldText(t, p) == s[p..NextNull(t, p)]
    ensures forall k :: p <= k < NextNull(t, p) ==> !IsDelimiter(s[k])
  {
    var e := NextNull(t, p);
    forall k | p <= k < e
      ensures !IsDelimiter(s[k]) && t[k] == s[k]
    {
    }
    assert FieldText(t, p) == t[p..e];
  }

  /** The text of a field that opens at `p`, a letter or digit, and ends by a
      terminator at `q <= stop` is a non-empty run of letters and digits. */
  lemma RunIsAlphanumeric(s: seq<char>, t: seq<char>, stop: nat, p: nat, q: nat)
    requires Terminated(t, s, stop)
    requires p <= q <= stop && q < |s| && t[q] == '\0' && !IsDelimiter(s[p])
    ensures HasNullFrom(t, p) && |FieldText(t, p)| > 0
    ensures forall j :: 0 <= j < |FieldText(t, p)| ==> !IsDelimiter(FieldText(t, p)[j])
  {
    RunText(s, t, stop, p, q);
    var e := NextNull(t, p);
    assert t[p] == s[p] != '\0';
    forall j | 0 <= j < |FieldText(t, p)|
      ensures !IsDelimiter(FieldText(t, p)[j])
    {
      assert FieldText(t, p)[j] == s[p + j];
    }
  }

  /** After a scan that rewrote the line up to `stop` (parseFields stops at
      Stop(s)), the text of every field but the last is a non-empty run of
      letters and digits; so is the last one's when a terminator lies at `stop`. */
  lemma ParsedFieldText(s: seq<char>, t: seq<char>, stop: nat, k: nat)
    requires stop < |s| && Terminated(t, s, stop)
    requires k < |FieldsBefore(s, stop)|
    requires k + 1 < |FieldsBefore(s, stop)| || s[stop] == '\0'
    ensures var p := FieldsBefore(s, stop)[k].position;
      HasNullFrom(t, p) && |FieldText(t, p)| > 0 &&
      forall j :: 0 <= j < |FieldText(t, p)| ==> !IsDelimiter(FieldText(t, p)[j])
  {
    var f := FieldsBefore(s, stop);
    var p := f[k].position;
    FieldsExactly(s, stop, p);
    if k + 1 < |f| {
      var p' := f[k + 1].position;
      FieldsIncreasing(s, stop);
      FieldsExactly(s, stop, p');
      assert IsDelimiter(s[p' - 1]);
      RunIsAlphanumeric(s, t, stop, p, p' - 1);
    } else {
      RunIsAlphanumeric(s, t, stop, p, stop);
    }
  }

  /** A scan stopped at `stop` by the field limit leaves the rest of the line
      untouched: the last field opens just before `stop`, and its text runs on
      through every offset up to the next terminator, so a delimiter `d` found
      there (a space, a comma) becomes part of that field's text. */
  lemma LimitOverrun(s: seq<char>, t: seq<char>, stop: nat, d: nat)
    requires stop < MAX_CHARS < |s| && Terminated(t, s, stop)
    requires !Continues(s, stop) && (stop > 0 ==> Continues(s, stop - 1))
    requires stop <= d < |s| && IsDelimiter(s[d]) && HasNullFrom(t, d)
    requires forall k :: stop <= k <= d ==> s[k] != '\0'
    ensures |FieldsBefore(s, stop)| == MAX_FIELDS
    ensures var p := FieldsBefore(s, stop)[MAX_FIELDS - 1].position;
      p + 1 == stop && HasNullFrom(t, p) && d - p < |FieldText(t, p)| &&
      FieldText(t, p)[d - p] == s[d]
  {
    assert s[stop] != '\0';
    assert stop > 0;
    var f := FieldsBefore(s, stop);
    assert f[MAX_FIELDS - 1] == Field(stop - 1, KindOf(s[stop - 1]));
    var p := stop - 1;
    assert t[p] == s[p] != '\0';
    var e := NextNull(t, d);
    forall k | p <= k < e
      ensures t[k] != '\0'
    {
      if stop <= k <= d {
        assert t[k] == s[k];
      }
    }
    NextNullAt(t, p, e);
    assert FieldText(t, p)[d - p] == t[d];
  }

  /** As written, when parseFields stops on the field limit, the text of the last
      recorded field takes in every delimiter of the unscanned rest of the line
      up to the next terminator. */
  lemma LastFieldOverrun(s: seq<char>, t: seq<char>, d: nat)
    requires MAX_CHARS < |s| && Terminated(t, s, Stop(s))
    requires Stop(s) < MAX_CHARS && Stop(s) <= d < |s| && IsDelimiter(s[d])
    requires forall k :: Stop(s) <= k <= d ==> s[k] != '\0'
    requires HasNullFrom(t, d)
    ensures |Fields(s)| == MAX_FIELDS
    ensures var p := Fields(s)[MAX_FIELDS - 1].position;
      p + 1 == Stop(s) && HasNullFrom(t, p) && d - p < |FieldText(t, p)| &&
      IsDelimiter(FieldText(t, p)[d - p])
  {
    var stop := Stop(s);
    assert stop > 0 ==> Continues(s, stop - 1);
    LimitOverrun(s, t, stop, d);
  }

  /** The line "a a a a a a": its sixth field is past the limit, and the fifth
      one's text reads "a a". */
  lemma OverrunExample()
    ensures var s := "a a a a a a" + seq(70, _ => '\0');
      Stop(s) == 9 && Fields(s)[4] == Field(8, 'a') &&
      forall t :: Terminated(t, s, Stop(s)) ==> HasNullFrom(t, 8) && FieldText(t, 8) == "a a"
  {
    var s := "a a a a a a" + seq(70, _ => '\0');
    assert FieldsBefore(s, 1) == [Field(0, 'a')];
    assert FieldsBefore(s, 2) == FieldsBefore(s, 1);
    assert FieldsBefore(s, 3) == FieldsBefore(s, 2) + [Field(2, 'a')];
    assert FieldsBefore(s, 4) == FieldsBefore(s, 3);
    assert FieldsBefore(s, 5) == FieldsBefore(s, 4) + [Field(4, 'a')];
    assert FieldsBefore(s, 6) == FieldsBefore(s, 5);
    assert FieldsBefore(s, 7) == FieldsBefore(s, 6) + [Field(6, 'a')];
    assert FieldsBefore(s, 8) == FieldsBefore(s, 7);
    assert FieldsBefore(s, 9) == FieldsBefore(s, 8) + [Field(8, 'a')];
    ScanStoppedAt(s, 9);
    forall t | Terminated(t, s, Stop(s))
      ensures HasNullFrom(t, 8) && FieldText(t, 8) == "a a"
    {
      NextNullAt(t, 8, 11);
      assert t[8..11] == "a a";
    }
  }

  /** The line "a a a a ab c": the scan stops on the 'b' inside the fifth field,
      and that field's text reads "ab c". */
  lemma OverrunLongerFieldExample()
    ensures var s := "a a a a ab c" + seq(69, _ => '\0');
      Stop(s) == 9 && Fields(s)[4] == Field(8, 'a') &&
      forall t :: Terminated(t, s, Stop(s)) ==> HasNullFrom(t, 8) && FieldText(t, 8) == "ab c"
  {
    var s := "a a a a ab c" + seq(69, _ => '\0');
    assert FieldsBefore(s, 1) == [Field(0, 'a')];
    assert FieldsBefore(s, 2) == FieldsBefore(s, 1);
    assert FieldsBefore(s, 3) == FieldsBefore(s, 2) + [Field(2, 'a')];
    assert FieldsBefore(s, 4) == FieldsBefore(s, 3);
    assert FieldsBefore(s, 5) == FieldsBefore(s, 4) + [Field(4, 'a')];
    assert FieldsBefore(s, 6) == FieldsBefore(s, 5);
    assert FieldsBefore(s, 7) == FieldsBefore(s, 6) + [Field(6, 'a')];
    assert FieldsBefore(s, 8) == FieldsBefore(s, 7);
    assert FieldsBefore(s, 9) == FieldsBefore(s, 8) + [Field(8, 'a')];
    ScanStoppedAt(s, 9);
    forall t | Terminated(t, s, Stop(s))
      ensures HasNullFrom(t, 8) && FieldText(t, 8) == "ab c"
    {
      NextNullAt(t, 8, 12);
      assert t[8..12] == "ab c";
    }
  }

  /** The line "abc 123" holds a word and a number: two fields, at 0 and 4. */
  lemma TwoFieldsExample()
    ensures var s := "abc 123" + seq(74, _ => '\0');
      Stop(s) == 7 && Fields(s) == [Field(0, 'a'), Field(4, 'n')]
  {
    var s := "abc 123" + seq(74, _ => '\0');
    assert FieldsBefore(s, 1) == [Field(0, 'a')];
    assert FieldsBefore(s, 2) == FieldsBefore(s, 1);
    assert FieldsBefore(s, 3) == FieldsBefore(s, 2);
    assert FieldsBefore(s, 4) == FieldsBefore(s, 3);
    assert FieldsBefore(s, 5) == FieldsBefore(s, 4) + [Field(4, 'n')];
    assert FieldsBefore(s, 6) == FieldsBefore(s, 5);
    assert FieldsBefore(s, 7) == FieldsBefore(s, 6);
    ScanStoppedAt(s, 7);
  }

  /** The line "abc123": a letter followed by a digit opens no new field, so the
      whole run is one field tagged as a word. */
  lemma AdjacentRunsExample()
    ensures var s := "abc123" + seq(75, _ => '\0');
      Stop(s) == 6 && Fields(s) == [Field(0, 'a')]
  {
    var s := "abc123" + seq(75, _ => '\0');
    assert FieldsBefore(s, 1) == [Field(0, 'a')];
    assert FieldsBefore(s, 2) == FieldsBefore(s, 1);
    assert FieldsBefore(s, 3) == FieldsBefore(s, 2);
    assert FieldsBefore(s, 4) == FieldsBefore(s, 3);
    assert FieldsBefore(s, 5) == FieldsBefore(s, 4);
    assert FieldsBefore(s, 6) == FieldsBefore(s, 5);
    ScanStoppedAt(s, 6);
  }

  /** The line "   " of blanks alone opens no field. */
  lemma BlankLineExample()
    ensures var s := "   " + seq(78, _ => '\0');
      Stop(s) == 3 && Fields(s) == []
  {
    var s := "   " + seq(78, _ => '\0');
    assert FieldsBefore(s, 1) == [];
    assert FieldsBefore(s, 2) == [];
    assert FieldsBefore(s, 3) == [];
    ScanStoppedAt(s, 3);
  }

  /** A stretch below `n` without a delimiter opens at most one field. */
  lemma {:induction false} DelimiterFreeOneField(s: seq<char>, n: nat)
    requires n <= |s|
    requires forall k :: 0 <= k < n ==> !IsDelimiter(s[k])
    ensures |FieldsBefore(s, n)| <= 1
  {
    if n > 1 {
      DelimiterFreeOneField(s, n - 1);
      assert !StartsField(s, n - 1);
    } else if n == 1 {
      assert FieldsBefore(s, 0) == [];
    }
  }

  /** A second scan of a tokenized line `t`, stopping at `stop2`, ends no later
      than the first scan and meets no delimiter on its way. */
  lemma RescanFrom(s: seq<char>, t: seq<char>, stop: nat, stop2: nat)
    requires MAX_CHARS < |s| && stop <= MAX_CHARS && stop2 <= MAX_CHARS
    requires Terminated(t, s, stop) && !Continues(s, stop)
    requires forall k :: 0 <= k < stop2 ==> Continues(t, k)
    ensures stop2 <= stop
    ensures forall k :: 0 <= k < stop2 ==> !IsDelimiter(t[k])
  {
    if stop < stop2 {
      forall j | 0 <= j < stop
        ensures !IsDelimiter(s[j])
      {
        assert Continues(t, j);
      }
      assert Continues(t, stop);
      DelimiterFreeOneField(s, stop);
      assert false;
    }
    forall k | 0 <= k < stop2
      ensures !IsDelimiter(t[k])
    {
      assert Continues(t, k);
    }
  }

  /** Tokenizing is destructive: once parseFields has turned the delimiters of
      the scanned prefix into terminators, scanning the line again finds at most
      one field, and stops no later than the first scan did. */
  lemma RetokenizeAtMostOneField(s: seq<char>, t: seq<char>)
    requires MAX_CHARS < |s| && Terminated(t, s, Stop(s))
    ensures Stop(t) <= Stop(s) && |Fields(t)| <= 1
  {
    RescanFrom(s, t, Stop(s), Stop(t));
    DelimiterFreeOneField(t, Stop(t));
  }

  /** Where the corrected scan stops: the first terminator from `i` on, or MAX_CHARS. */
  function EndFrom(s: seq<char>, i: nat): (j: nat)
    requires MAX_CHARS < |s| && i <= MAX_CHARS
    ensures i <= j <= MAX_CHARS
    ensures j < MAX_CHARS ==> s[j] == '\0'
    ensures forall k :: i <= k < j ==> s[k] != '\0'
    decreases MAX_CHARS - i
  {
    if i == MAX_CHARS || s[i] == '\0' then i else EndFrom(s, i + 1)
  }

  function End(s: seq<char>): nat
    requires MAX_CHARS < |s|
  {
    EndFrom(s, 0)
  }

  /** The table the corrected scan records: the first MAX_FIELDS fields of the line. */
  function CorrectedFields(s: seq<char>): seq<Field>
    requires MAX_CHARS < |s|
  {
    var f := FieldsBefore(s, End(s));
    if |f| <= MAX_FIELDS then f else f[..MAX_FIELDS]
  }

  lemma {:induction false} EndFromIs(s: seq<char>, i: nat, j: nat)
    requires MAX_CHARS < |s| && i <= j <= MAX_CHARS
    requires forall k :: i <= k < j ==> s[k] != '\0'
    requires j == MAX_CHARS || s[j] == '\0'
    ensures EndFrom(s, i) == j
    decreases j - i
  {
    if i < j {
      EndFromIs(s, i + 1, j);
    }
  }

  /** A line with a terminator at or before MAX_CHARS, as getsUart0 leaves it. */
  predicate LineTerminated(s: seq<char>)
  {
    MAX_CHARS < |s| && exists q :: 0 <= q <= MAX_CHARS && s[q] == '\0'
  }

  /** After the corrected scan, the text of every recorded field is a non-empty
      run of letters and digits, the last one included. */
  lemma CorrectedFieldText(s: seq<char>, t: seq<char>, k: nat)
    requires LineTerminated(s) && Terminated(t, s, End(s))
    requires k < |CorrectedFields(s)|
    ensures var p := CorrectedFields(s)[k].position;
      HasNullFrom(t, p) && |FieldText(t, p)| > 0 &&
      forall j :: 0 <= j < |FieldText(t, p)| ==> !IsDelimiter(FieldText(t, p)[j])
  {
    var end := End(s);
    assert s[end] == '\0';
    assert CorrectedFields(s)[k] == FieldsBefore(s, end)[k];
    ParsedFieldText(s, t, end, k);
  }

  /** What a scan that left off at offset `i` has achieved, stated for both parse
      loops: no terminator before `i`, each delimiter before `i` overwritten with
      one, and everything from `i` on as received. */
  ghost predicate ScannedTo(t: seq<char>, s: seq<char>, i: nat)
  {
    |t| == |s| && i <= |s| &&
    (forall k :: 0 <= k < i ==> s[k] != '\0' && t[k] == if IsDelimiter(s[k]) then '\0' else s[k]) &&
    (forall k :: i <= k < |s| ==> t[k] == s[k])
  }

  /** One more character scanned: a delimiter at `i` becomes a terminator and
      anything else stays. */
  lemma ScannedStep(t: seq<char>, s: seq<char>, i: nat)
    requires ScannedTo(t, s, i) && i < |s| && s[i] != '\0'
    ensures ScannedTo(t[i := if IsDelimiter(s[i]) then '\0' else s[i]], s, i + 1)
  {
  }

  /** When the tokenizer's loop exits at `i` having recorded `fields`, it
      stopped where Stop says, its table is Fields, and the buffer is Terminated. */
  lemma ScanOutcome(s: seq<char>, t: seq<char>, i: nat, fields: seq<Field>)
    requires MAX_CHARS < |s| && i <= MAX_CHARS && ScannedTo(t, s, i)
    requires i > 0 ==> |FieldsBefore(s, i - 1)| < MAX_FIELDS
    requires fields == FieldsBefore(s, i)
    requires t[i] == '\0' || i == MAX_CHARS || |fields| == MAX_FIELDS
    ensures Stop(s) == i && Fields(s) == fields && Terminated(t, s, Stop(s))
  {
    ScanStoppedAt(s, i);
  }

  /** When the corrected loop exits at `i`, it stopped where End says, its table
      is CorrectedFields, and the buffer is Terminated up to End. */
  lemma CorrectedScanOutcome(s: seq<char>, t: seq<char>, i: nat, fields: seq<Field>, count: nat)
    requires MAX_CHARS < |s| && i <= MAX_CHARS && ScannedTo(t, s, i)
    requires fields == FieldsBefore(s, i)
    requires count <= MAX_FIELDS && count <= |fields| && (count < MAX_FIELDS ==> count == |fields|)
    requires t[i] == '\0' || i == MAX_CHARS
    ensures End(s) == i && CorrectedFields(s) == fields[..count] && Terminated(t, s, End(s))
  {
    EndFromIs(s, 0, i);
  }

  /** The corrected scan's table stays the first `count` fields found when one
      more field is found, recorded or not. */
  lemma ExtendTable(fields: seq<Field>, f: Field, count: nat, table: seq<Field>)
    requires (count <= |fields| && table == fields[..count]) ||
             (count == |fields| + 1 && table == fields + [f])
    ensures table == (fields + [f])[..count]
  {
    if count <= |fields| {
      assert (fields + [f])[..count] == fields[..count];
    }
  }

  // ---------------------------------------------------------------------------
  // The console record and the tokenizer
  // ---------------------------------------------------------------------------

  /** The console record: the line buffer and the parallel field table. */
  class UserData {
    var buffer: array<char>
    var fieldPosition: array<nat>
    var fieldType: array<char>
    var fieldCount: nat

    ghost predicate Valid()
      reads this
    {
      buffer.Length == MAX_CHARS + 1 &&
      fieldPosition.Length == MAX_FIELDS &&
      fieldType.Length == MAX_FIELDS &&
      buffer != fieldType &&
      fieldCount <= MAX_FIELDS
    }

    /** A record with an empty line and no fields. */
    constructor ()
      ensures Valid() && fresh(buffer) && fresh(fieldPosition) && fresh(fieldType)
      ensures buffer[..] == seq(MAX_CHARS + 1, _ => '\0') && fieldCount == 0
    {
      buffer := new char[MAX_CHARS + 1](_ => '\0');
      fieldPosition := new nat[MAX_FIELDS](_ => 0);
      fieldType := new char[MAX_FIELDS](_ => 'd');
      fieldCount := 0;
    }

    /** The two stores that record a field in parseFields: its offset and its kind
        tag at index `count` of the parallel arrays, which extends the table the
        arrays hold by one entry and leaves the entries above it alone. */
    static method RecordField(pos: array<nat>, typ: array<char>, count: nat, i: nat, kind: char,
                              ghost table: seq<Field>, ghost pos0: seq<nat>, ghost typ0: seq<char>)
        returns (ghost table': seq<Field>)
      requires count == |table| && count < pos.Length && count < typ.Length
      requires TableHolds(pos[..], typ[..], table, pos0, typ0)
      modifies pos, typ
      ensures table' == table + [Field(i, kind)]
      ensures TableHolds(pos[..], typ[..], table', pos0, typ0)
    {
      pos[count] := i;
      typ[count] := kind;
      table' := table + [Field(i, kind)];
    }

    /** parseFields: one left-to-right pass that records where each field opens
        and its kind, and overwrites every delimiter it scans with a terminator.
        Table entries from fieldCount on keep their previous values. */
    method ParseFields()
      requires Valid()
      modifies buffer, fieldPosition, fieldType, this`fieldCount
      ensures Valid()
      ensures var s := old(buffer[..]);
        fieldCount == |Fields(s)| &&
        TableHolds(fieldPosition[..], fieldType[..], Fields(s), old(fieldPosition[..]), old(fieldType[..])) &&
        Terminated(buffer[..], s, Stop(s))
    {
      var buf, pos, typ := buffer, fieldPosition, fieldType;
      ghost var s, pos0, typ0 := buf[..], pos[..], typ[..];
      ghost var fields: seq<Field> := [];
      var lastField := 'd';
      var i: nat := 0;
      var count: nat := 0;
      while buf[i] != '\0' && i < MAX_CHARS && count < MAX_FIELDS
        invariant i <= MAX_CHARS
        invariant i > 0 ==> |FieldsBefore(s, i - 1)| < MAX_FIELDS
        invariant (lastField == 'd') == (i == 0 || IsDelimiter(s[i - 1]))
        invariant fields == FieldsBefore(s, i) && count == |fields| <= MAX_FIELDS
        invariant TableHolds(pos[..], typ[..], fields, pos0, typ0)
        invariant ScannedTo(buf[..], s, i)
        decreases MAX_CHARS - i
      {
        ghost var t := buf[..];
        if IsLetter(buf[i]) {
          if lastField == 'd' {
            fields := RecordField(pos, typ, count, i, 'a', fields, pos0, typ0);
            count := count + 1;
            lastField := 'a';
          }
        } else if IsDigit(buf[i]) {
          if lastField == 'd' {
            fields := RecordField(pos, typ, count, i, 'n', fields, pos0, typ0);
            count := count + 1;
            lastField := 'n';
          }
        } else {
          buf[i] := '\0';
          lastField := 'd';
        }
        ScannedStep(t, s, i);
        assert buf[..] == t[i := if IsDelimiter(s[i]) then '\0' else s[i]];
        i := i + 1;
      }
      ScanOutcome(s, buf[..], i, fields);
      fieldCount := count;
    }

    /** parseFields with the field limit moved into the recording step: the scan
        runs on to the terminator of the line or MAX_CHARS, overwriting every
        delimiter, and records the first MAX_FIELDS fields only. */
    method ParseFieldsCorrected()
      requires Valid()
      modifies buffer, fieldPosition, fieldType, this`fieldCount
      ensures Valid()
      ensures var s := old(buffer[..]);
        fieldCount == |CorrectedFields(s)| &&
        TableHolds(fieldPosition[..], fieldType[..], CorrectedFields(s), old(fieldPosition[..]), old(fieldType[..])) &&
        Terminated(buffer[..], s, End(s))
    {
      var buf, pos, typ := buffer, fieldPosition, fieldType;
      ghost var s, pos0, typ0 := buf[..], pos[..], typ[..];
      ghost var fields: seq<Field> := [];
      ghost var table: seq<Field> := [];
      var lastField := 'd';
      var i: nat := 0;
      var count: nat := 0;
      while buf[i] != '\0' && i < MAX_CHARS
        invariant i <= MAX_CHARS
        invariant (lastField == 'd') == (i == 0 || IsDelimiter(s[i - 1]))
        invariant fields == FieldsBefore(s, i)
        invariant count <= MAX_FIELDS && count <= |fields| && (count < MAX_FIELDS ==> count == |fields|)
        invariant table == fields[..count]
        invariant TableHolds(pos[..], typ[..], table, pos0, typ0)
        invariant ScannedTo(buf[..], s, i)
        decreases MAX_CHARS - i
      {
        ghost var t := buf[..];
        if IsLetter(buf[i]) {
          if lastField == 'd' {
            if count < MAX_FIELDS {
              table := RecordField(pos, typ, count, i, 'a', table, pos0, typ0);
              count := count + 1;
            }
            ExtendTable(fields, Field(i, 'a'), count, table);
            fields := fields + [Field(i, 'a')];
            lastField := 'a';
          }
        } else if IsDigit(buf[i]) {
          if lastField == 'd' {
            if count < MAX_FIELDS {
              table := RecordField(pos, typ, count, i, 'n', table, pos0, typ0);
              count := count + 1;
            }
            ExtendTable(fields, Field(i, 'n'), count, table);
            fields := fields + [Field(i, 'n')];
            lastField := 'n';
          }
        } else {
          buf[i] := '\0';
          lastField := 'd';
        }
        ScannedStep(t, s, i);
        assert buf[..] == t[i := if IsDelimiter(s[i]) then '\0' else s[i]];
        i := i + 1;
      }
      CorrectedScanOutcome(s, buf[..], i, fields, count);
      fieldCount := count;
    }

    /** getFieldInteger: the decimal value of the text of field `f`, folded most
        significant digit first as the characters up to the next terminator are read. */
    method GetFieldInteger(f: nat) returns (sum: int)
      requires Valid() && f < MAX_FIELDS
      requires HasNullFrom(buffer[..], fieldPosition[f])
      requires IsDigitString(FieldText(buffer[..], fieldPosition[f]))
      requires |FieldText(buffer[..], fieldPosition[f])| <= 9
      ensures sum == DecimalValue(FieldText(buffer[..], fieldPosition[f]))
      ensures 0 <= sum <= INT32_MAX
    {
      ghost var t := buffer[..];
      var start := fieldPosition[f];
      ghost var q := NextNull(t, start);
      var index := start;
      sum := 0;
      while buffer[index] != '\0'
        invariant start <= index <= q
        invariant sum == DecimalValue(t[start..index])
        decreases q - index
      {
        assert t[start..index + 1] == t[start..index] + [t[index]];
        DecimalValueAppend(t[start..index], t[index]);
        sum := sum * 10 + (buffer[index] as int - '0' as int);
        index := index + 1;
      }
      NineDigitsFit(t[start..q]);
    }

    /** getFieldString: nothing for a field number past the table, and otherwise
        a copy of the text of field `f` up to the next terminator. */
    method GetFieldString(f: nat) returns (r: Option<seq<char>>)
      requires Valid()
      requires f < MAX_FIELDS ==> HasNullFrom(buffer[..], fieldPosition[f])
      ensures f >= MAX_FIELDS ==> r == None
      ensures f < MAX_FIELDS ==> r == Some(FieldText(buffer[..], fieldPosition[f]))
    {
      var returnString := new char[MAX_CHARS](_ => '\0');
      if f >= MAX_FIELDS {
        return None;
      }
      ghost var t := buffer[..];
      var start := fieldPosition[f];
      ghost var q := NextNull(t, start);
      var i := 0;
      while buffer[i + start] != '\0'
        invariant start + i <= q
        invariant returnString[..i] == t[start..start + i]
        decreases q - (start + i)
      {
        returnString[i] := buffer[i + start];
        i := i + 1;
      }
      r := Some(returnString[..i]);
    }
  }
  // ---------------------------------------------------------------------------
  // Decimal output
  // ---------------------------------------------------------------------------

  /** The character for decimal digit `d`. */
  function DigitChar(d: nat): char
    requires d < 10
  {
    ('0' as int + d) as char
  }

  /** The decimal digits of `n`, least significant first; none for zero. */
  function LsbDigits(n: nat): seq<char>
  {
    if n == 0 then [] else [DigitChar(n % 10)] + LsbDigits(n / 10)
  }

  function Reverse<T>(s: seq<T>): (r: seq<T>)
    ensures |r| == |s|
  {
    if s == [] then [] else Reverse(s[1..]) + [s[0]]
  }

  /** Reverse puts the element at `k` from the end at `k`. */
  lemma {:induction false} ReverseIndex<T>(s: seq<T>)
    ensures forall k :: 0 <= k < |s| ==> Reverse(s)[k] == s[|s| - 1 - k]
  {
    if s != [] {
      ReverseIndex(s[1..]);
    }
  }

  /** The decimal representation of `n`: "0" for zero, and otherwise its digits
      most significant first. */
  function DecimalString(n: nat): seq<char>
  {
    if n == 0 then "0" else Reverse(LsbDigits(n))
  }

  /** A number below 10^k has at most k digits. */
  lemma {:induction false} LsbDigitsLength(n: nat, k: nat)
    requires n < Pow10(k)
    ensures |LsbDigits(n)| <= k
  {
    if n > 0 {
      LsbDigitsLength(n / 10, k - 1);
    }
  }

  /** Every character of the representation is a digit, and the last of the
      least-significant-first digits of a non-zero number is not '0'. */
  lemma {:induction false} LsbDigitsShape(n: nat)
    ensures IsDigitString(LsbDigits(n))
    ensures n > 0 ==> LsbDigits(n)[|LsbDigits(n)| - 1] != '0'
  {
    if n > 0 {
      LsbDigitsShape(n / 10);
    }
  }

  /** Reading the digits back, most significant first, gives the number. */
  lemma {:induction false} LsbDigitsValue(n: nat)
    ensures DecimalValue(Reverse(LsbDigits(n))) == n
  {
    if n > 0 {
      var rest := LsbDigits(n / 10);
      assert LsbDigits(n)[1..] == rest;
      assert Reverse(LsbDigits(n)) == Reverse(rest) + [DigitChar(n % 10)];
      DecimalValueAppend(Reverse(rest), DigitChar(n % 10));
      LsbDigitsValue(n / 10);
    }
  }

  /** putiUart0 and getFieldInteger are inverse: the value of the decimal
      representation is the number itself. */
  lemma DecimalRoundTrip(n: nat)
    ensures DecimalValue(DecimalString(n)) == n
  {
    if n > 0 {
      LsbDigitsValue(n);
    }
  }

  /** The representation is a non-empty digit string without leading zeros:
      it opens with '0' only for zero. */
  lemma DecimalStringCanonical(n: nat)
    ensures |DecimalString(n)| >= 1 && IsDigitString(DecimalString(n))
    ensures DecimalString(n)[0] == '0' <==> n == 0
  {
    if n > 0 {
      LsbDigitsShape(n);
      ReverseIndex(LsbDigits(n));
    }
  }

  /** A digit string without leading zeros is the representation of its value:
      the other direction of the round trip. */
  lemma {:induction false} CanonicalRoundTrip(d: seq<char>)
    requires IsDigitString(d) && d != [] && (d[0] == '0' ==> d == "0")
    ensures 0 <= DecimalValue(d) && DecimalString(DecimalValue(d)) == d
    decreases |d|
  {
    if |d| == 1 {
      SingleDigitRoundTrip(d[0]);
      assert d == [d[0]];
    } else {
      CanonicalPrefix(d);
      CanonicalRoundTrip(d[..|d| - 1]);
      CanonicalStep(d);
    }
  }

  /** Dropping the last digit of a canonical string of two or more digits
      leaves a canonical string with a positive value. */
  lemma CanonicalPrefix(d: seq<char>)
    requires IsDigitString(d) && |d| > 1 && d[0] != '0'
    ensures IsDigitString(d[..|d| - 1]) && d[..|d| - 1][0] != '0'
    ensures DecimalValue(d[..|d| - 1]) > 0 && IsDigit(d[|d| - 1])
  {
    LeadingDigitPositive(d[..|d| - 1]);
  }

  /** The round trip extends from a string without its last digit to the string. */
  lemma CanonicalStep(d: seq<char>)
    requires |d| > 1 && IsDigit(d[|d| - 1]) && DecimalValue(d[..|d| - 1]) > 0
    requires DecimalString(DecimalValue(d[..|d| - 1])) == d[..|d| - 1]
    ensures 0 <= DecimalValue(d) && DecimalString(DecimalValue(d)) == d
  {
    var init, c := d[..|d| - 1], d[|d| - 1];
    DecimalStringAppend(DecimalValue(init), c);
    assert DecimalValue(d) == DecimalValue(init) * 10 + DigitValue(c);
    assert init + [c] == d;
  }

  /** Appending digit `c` to a positive number's representation gives the
      representation of ten times the number plus the digit. */
  lemma DecimalStringAppend(v: nat, c: char)
    requires v > 0 && IsDigit(c)
    ensures DecimalString(v * 10 + DigitValue(c)) == DecimalString(v) + [c]
  {
    LsbDigitsAppend(v, c);
    ReverseCons(c, LsbDigits(v));
  }

  lemma SingleDigitRoundTrip(c: char)
    requires IsDigit(c)
    ensures DecimalValue([c]) == DigitValue(c) && DecimalString(DigitValue(c)) == [c]
  {
    assert [c][..0] == [];
    if c != '0' {
      assert LsbDigits(DigitValue(c)) == [DigitChar(DigitValue(c))] + LsbDigits(0);
    }
  }

  /** Appending digit `c` to a positive number puts `c` first among its
      least-significant-first digits. */
  lemma LsbDigitsAppend(v: nat, c: char)
    requires v > 0 && IsDigit(c)
    ensures v * 10 + DigitValue(c) > 0
    ensures LsbDigits(v * 10 + DigitValue(c)) == [c] + LsbDigits(v)
  {
    var w := v * 10 + DigitValue(c);
    assert w % 10 == DigitValue(c) && w / 10 == v;
  }

  lemma ReverseCons<T>(x: T, s: seq<T>)
    ensures Reverse([x] + s) == Reverse(s) + [x]
  {
    assert ([x] + s)[1..] == s;
  }

  /** What putiUart0 sends for 42. */
  lemma DecimalStringExample()
    ensures DecimalString(42) == "42"
  {
    assert LsbDigits(42) == "24";
  }

  lemma ReverseDigits(d: seq<char>)
    requires IsDigitString(d)
    ensures IsDigitString(Reverse(d))
  {
    ReverseIndex(d);
  }

  /** A digit string followed by a terminator is the text up to that terminator. */
  lemma TerminatedDigits(t: seq<char>, d: seq<char>)
    requires IsDigitString(d) && |d| < |t| && t[..|d|] == d && t[|d|] == '\0'
    ensures HasNullFrom(t, 0) && NextNull(t, 0) == |d| && t[..NextNull(t, 0)] == d
  {
    forall k | 0 <= k < |d|
      ensures t[k] != '\0'
    {
      assert t[k] == d[k];
    }
    NextNullAt(t, 0, |d|);
  }

  /** putsUart0: the characters handed to putcUart0, one at a time from the start
      of `str` up to its first terminator, which the 8-bit index must reach. */
  method PutString(str: array<char>) returns (sent: seq<char>)
    requires HasNullFrom(str[..], 0) && NextNull(str[..], 0) < 256
    ensures sent == str[..NextNull(str[..], 0)]
  {
    ghost var q := NextNull(str[..], 0);
    var i := 0;
    sent := [];
    while str[i] != '\0'
      invariant i <= q
      invariant sent == str[..i]
      decreases q - i
    {
      sent := sent + [str[i]];
      i := i + 1;
    }
  }

  /** The swap loop of putiUart0: exchanges the ends of `a[..length]` moving inwards,
      which reverses that prefix and leaves the rest of `a` alone. */
  method ReverseInPlace(a: array<char>, length: nat)
    requires length <= a.Length
    modifies a
    ensures a[..length] == Reverse(old(a[..length]))
    ensures a[length..] == old(a[length..])
  {
    ghost var orig := a[..];
    var i, j := 0, length - 1;
    while i < j
      invariant 0 <= i <= j + 1 && i + j == length - 1
      invariant forall k :: 0 <= k < i ==> a[k] == orig[length - 1 - k]
      invariant forall k :: j < k < length ==> a[k] == orig[length - 1 - k]
      invariant forall k :: i <= k <= j ==> a[k] == orig[k]
      invariant forall k :: length <= k < a.Length ==> a[k] == orig[k]
    {
      var tempChar := a[i];
      a[i] := a[j];
      a[j] := tempChar;
      i, j := i + 1, j - 1;
    }
    assert forall k :: 0 <= k < length ==> a[k] == orig[length - 1 - k];
    ReverseIndex(orig[..length]);
    assert a[..length] == Reverse(orig[..length]);
    assert a[length..] == orig[length..];
  }

  /** The digits putiUart0 stores, least significant first: "0" for zero. */
  function LsbString(n: nat): seq<char>
  {
    if n == 0 then "0" else LsbDigits(n)
  }

  /** The first two steps of putiUart0: a '0' for zero, then one digit per division
      by ten, least significant first, into the zeroed buffer. */
  method StoreLsbDigits(outputString: array<char>, num: nat)
    requires num <= INT32_MAX && outputString.Length == 99
    requires forall k :: 0 <= k < 99 ==> outputString[k] == '\0'
    modifies outputString
    ensures |LsbString(num)| <= 10
    ensures outputString[..|LsbString(num)|] == LsbString(num)
    ensures forall k :: |LsbString(num)| <= k < 99 ==> outputString[k] == '\0'
  {
    assert Pow10(10) == 10_000_000_000;
    LsbDigitsLength(num, 10);
    var total := num;
    if total == 0 {
      outputString[0] := '0';
      return;
    }
    var i := 0;
    ghost var done: seq<char> := [];
    while total != 0
      invariant LsbDigits(num) == done + LsbDigits(total)
      invariant i == |done| <= 10
      invariant forall k :: 0 <= k < i ==> outputString[k] == done[k]
      invariant forall k :: i <= k < 99 ==> outputString[k] == '\0'
      decreases total
    {
      var currentDigit := total % 10;
      outputString[i] := currentDigit as char + '0';
      done := done + [DigitChar(currentDigit)];
      total := total / 10;
      i := i + 1;
    }
    assert outputString[..|done|] == done;
  }

  /** The length loop of putiUart0: the offset of the first terminator. */
  method TextLength(a: array<char>) returns (length: nat)
    requires HasNullFrom(a[..], 0)
    ensures length == NextNull(a[..], 0)
  {
    ghost var q := NextNull(a[..], 0);
    length := 0;
    while a[length] != '\0'
      invariant length <= q
      decreases q - length
    {
      length := length + 1;
    }
  }

  /** putiUart0 for a non-negative number: the digits go least significant first
      into a zeroed buffer, their count is found by scanning for the terminator,
      the two ends are swapped inwards, and the buffer is sent. */
  method PutInteger(num: int) returns (sent: seq<char>)
    requires 0 <= num <= INT32_MAX
    ensures sent == DecimalString(num)
  {
    var outputString := new char[99](_ => '\0');
    StoreLsbDigits(outputString, num);
    ghost var lsb := LsbString(num);
    LsbDigitsShape(num);
    TerminatedDigits(outputString[..], lsb);
    var length := TextLength(outputString);
    ReverseInPlace(outputString, length);
    ReverseDigits(lsb);
    TerminatedDigits(outputString[..], Reverse(lsb));
    sent := PutString(outputString);
    assert num == 0 ==> Reverse(lsb) == "0";
  }

  // ---------------------------------------------------------------------------
  // Baud-rate divisor
  // ---------------------------------------------------------------------------

  /** The two divisor registers: the integer part and the 6-bit fraction in 64ths. */
  datatype BaudDivisors = BaudDivisors(integer: nat, fraction: nat)

  /** setUart0BaudRate's arithmetic in 32-bit unsigned integers: the divisor in
      128ths plus one 128th for rounding, split into the integer part and the
      fraction rounded to 64ths. */
  function BaudRateDivisors(baudRate: nat, fcyc: nat): (d: BaudDivisors)
    requires 0 < baudRate < UINT32_MOD && fcyc < UINT32_MOD
    ensures d.fraction < 64
    ensures d.integer * 64 + d.fraction == ((fcyc * 8) % UINT32_MOD / baudRate + 1) / 2
  {
    var divisorTimes128 := (fcyc * 8) % UINT32_MOD / baudRate + 1;
    BaudDivisors(divisorTimes128 / 128, divisorTimes128 / 2 % 64)
  }

  /** When fcyc * 8 does not wrap, the registers together hold n, the divisor
      fcyc / (16 * baudRate) in 64ths rounded to the nearest (halves up):
      n - 1/2 <= fcyc * 4 / baudRate < n + 1/2. */
  lemma BaudRateRounds(baudRate: nat, fcyc: nat)
    requires 0 < baudRate < UINT32_MOD && fcyc * 8 < UINT32_MOD
    ensures var d := BaudRateDivisors(baudRate, fcyc);
      var n := d.integer * 64 + d.fraction;
      2 * baudRate * n <= 8 * fcyc + baudRate < 2 * baudRate * (n + 1)
  {
    var b, a := baudRate, fcyc * 8;
    assert a % UINT32_MOD == a;
    var x := a / b;
    assert x * b <= a < x * b + b;
    var n := (x + 1) / 2;
    assert 2 * n <= x + 1 <= 2 * n + 1;
    MulMonotone(2 * n, x + 1, b);
    MulMonotone(x + 2, 2 * n + 2, b);
  }

  lemma MulMonotone(m: int, n: int, b: nat)
    requires m <= n
    ensures m * b <= n * b
  {
  }

  /** The divisors for 115200 baud at 40 MHz are the 21 and 45 initUart0 writes. */
  lemma BaudRateExample()
    ensures BaudRateDivisors(115200, 40_000_000) == BaudDivisors(21, 45)
  {
  }
}
