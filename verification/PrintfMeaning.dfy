/** What the conversions of Printf mean, said without the functions that compute them: which letter
    prints in which base, which digits, where the blanks stand, how a directive is written, and
    which argument it takes (kernel/src/printf.c:199-301 and 577-850). */
module PrintfMeaning {
  import opened Division
  import opened Printf

  // ----- Numerals -----

  /** The number that digits make, read from left to right. */
  function Numeral(s: string, base: nat): int {
    if s == "" then 0 else Numeral(s[..|s| - 1], base) * base + DigitValue(s[|s| - 1])
  }

  lemma {:induction false} NumeralOfReverse(buf: string, base: nat)
    ensures Numeral(Reverse(buf), base) == ValueOf(buf, base)
    decreases |buf|
  {
    if buf != "" {
      NumeralOfReverse(buf[1..], base);
      NumeralAppend(Reverse(buf[1..]), buf[0], base);
    }
  }

  lemma NumeralAppend(s: string, c: char, base: nat)
    ensures Numeral(s + [c], base) == DigitValue(c) + base * Numeral(s, base)
  {
    assert (s + [c])[..|s|] == s;
  }

  lemma {:induction false} ReverseAt(s: string, i: nat)
    requires i < |s|
    ensures Reverse(s)[i] == s[|s| - 1 - i]
    decreases |s|
  {
    if i < |s| - 1 { ReverseAt(s[1..], i); }
  }

  /** A digit of the base, written with letters of one case. */
  predicate IsDigitOf(c: char, base: nat, uppercase: bool) {
    || (IsDigit(c) && DigitOf(c) < base)
    || (base == 16 && if uppercase then 'A' <= c <= 'F' else 'a' <= c <= 'f')
  }

  predicate Digital(s: string, base: nat, uppercase: bool) {
    forall i | 0 <= i < |s| :: IsDigitOf(s[i], base, uppercase)
  }

  lemma DigitCharIs(d: nat, base: nat, uppercase: bool)
    requires IsBase(base) && d < base
    ensures IsDigitOf(DigitChar(d, uppercase), base, uppercase) && DigitValue(DigitChar(d, uppercase)) == d
    ensures DigitChar(d, uppercase) == '0' <==> d == 0
  {
  }

  /** The digit buffer keeps the number modulo what its room can hold. */
  lemma {:induction false} DigitsModulo(value: nat, base: nat, uppercase: bool, room: nat)
    requires IsBase(base)
    ensures Power(base, room) > 0
    ensures Digital(Digits(value, base, uppercase, room), base, uppercase)
    ensures ValueOf(Digits(value, base, uppercase, room), base) == value % Power(base, room)
    decreases room
  {
    if room > 0 {
      var q, m := Div(value, base), Mod(value, base);
      DigitsStep(value, base, uppercase, room);
      DigitCharIs(m, base, uppercase);
      DigitsModulo(q, base, uppercase, room - 1);
      ModuloStep(q, m, base, Power(base, room - 1));
    }
  }

  lemma ModuloStep(q: nat, m: nat, base: nat, p: nat)
    requires m < base && p > 0
    ensures base * p > 0 && (q * base + m) % (base * p) == m + base * (q % p)
  {
    DivMod(q, p);
    Scaled(base, q % p + 1, p);
    Regrouped(q / p, p, q % p, base, m);
    Distributed(base, q % p);
    DivUnique(q * base + m, q / p, base * p, base * (q % p) + m);
  }

  lemma Distributed(base: nat, r: nat)
    ensures base * (r + 1) == base * r + base
  {
  }

  lemma Regrouped(k: nat, p: nat, r: nat, base: nat, m: nat)
    ensures (k * p + r) * base + m == k * (base * p) + (base * r + m)
  {
    assert (k * p + r) * base == k * p * base + r * base;
    assert k * p * base == k * (base * p);
  }

  // ----- Numbers in a field -----

  lemma DigitalIsDigits(s: string, base: nat, uppercase: bool)
    requires IsBase(base) && Digital(s, base, uppercase)
    ensures DigitsOf(s, base)
  {
    forall i | 0 <= i < |s| ensures 0 <= DigitValue(s[i]) < base { assert IsDigitOf(s[i], base, uppercase); }
  }

  /** `digits` is the number, modulo what `room` digits can hold, in at least `least` digits, and in
      no more than needed. */
  predicate Writes(digits: string, value: nat, base: nat, uppercase: bool, least: nat, room: nat) {
    && Digital(digits, base, uppercase) && least <= |digits| <= room
    && Numeral(digits, base) == Kept(value, base, room)
    && (Kept(value, base, room) == value && |digits| > least ==> digits[0] != '0')
  }

  function Kept(value: nat, base: nat, room: nat): nat {
    if Power(base, room) > 0 then value % Power(base, room) else 0
  }

  /** The least number of digits: one, unless a precision says that zero has none; and as many as
      the precision and the zero-padded width ask for, which '-' switches off. */
  function Least(value: nat, prec: nat, width: nat, f: Flags): nat {
    var own := if f.precision && value == 0 then 0 else 1;
    if f.left then own else Max(Max(own, Min(prec, 32)), if f.zeropad then Min(width, 32) else 0)
  }

  lemma DigitsWrite(value: nat, base: nat, uppercase: bool, room: nat)
    requires IsBase(base) && room > 0
    ensures var b := Digits(value, base, uppercase, room);
            && Digital(b, base, uppercase) && 1 <= |b| <= room && ValueOf(b, base) == Kept(value, base, room)
            && (Kept(value, base, room) == value && |b| > 1 ==> b[|b| - 1] != '0')
            && (value == 0 ==> |b| <= 1)
  {
    DigitsModulo(value, base, uppercase, room);
    DigitsShort(value, base, uppercase, room);
    if Kept(value, base, room) == value { DigitsLength(value, base, uppercase, room); }
  }

  lemma {:induction false} DigitsShort(value: nat, base: nat, uppercase: bool, room: nat)
    requires IsBase(base)
    ensures |Digits(value, base, uppercase, room)| <= room && (room > 0 ==> |Digits(value, base, uppercase, room)| >= 1)
    ensures value == 0 ==> |Digits(value, base, uppercase, room)| <= 1
    decreases room
  {
    if room > 0 {
      DigitsStep(value, base, uppercase, room);
      DigitsShort(Div(value, base), base, uppercase, room - 1);
    }
  }

  /** Padding with zeros. */
  lemma PaddedWrites(b: string, value: nat, base: nat, prec: nat, width: nat, f: Flags, own: nat, room: nat)
    requires IsBase(base) && room == NTOA_BUFFER_SIZE && own <= 1 && own == (if f.precision && value == 0 then 0 else 1)
    requires Digital(b, base, f.uppercase) && own <= |b| <= room && ValueOf(b, base) == Kept(value, base, room)
    requires Kept(value, base, room) == value && |b| > own ==> b[|b| - 1] != '0'
    ensures Writes(Reverse(Padded(b, prec, width, f)), value, base, f.uppercase, Least(value, prec, width, f), room)
  {
    DigitalIsDigits(b, base, f.uppercase);
    PaddedOf(b, base, prec, width, f);
    var p := Padded(b, prec, width, f);
    FilledWrites(b, p, value, base, f.uppercase, PaddedLength(|b|, prec, width, f), Least(value, prec, width, f), own, room);
  }

  lemma FilledWrites(b: string, p: string, value: nat, base: nat, uppercase: bool, length: nat, least: nat, own: nat, room: nat)
    requires IsBase(base) && ZeroFilled(b, p) && Digital(b, base, uppercase) && ValueOf(p, base) == Kept(value, base, room)
    requires own <= |b| <= |p| == length <= room && least <= length && (least < length ==> |b| == length && own <= least)
    requires Kept(value, base, room) == value && |b| > own ==> b[|b| - 1] != '0'
    ensures Writes(Reverse(p), value, base, uppercase, least, room)
  {
    NumeralOfReverse(p, base);
    PaddedDigital(b, p, base, uppercase);
    if |p| > 0 { ReverseAt(p, 0); }
  }

  lemma PaddedDigital(b: string, p: string, base: nat, uppercase: bool)
    requires IsBase(base) && Digital(b, base, uppercase) && ZeroFilled(b, p)
    ensures Digital(Reverse(p), base, uppercase)
  {
    forall i | 0 <= i < |p| ensures IsDigitOf(Reverse(p)[i], base, uppercase) {
      ReverseAt(p, i);
      var j := |p| - 1 - i;
      assert p[j] == if j < |b| then b[j] else '0';
    }
  }

  /** The digits of a number without the '#' flag. */
  function Shown(value: nat, negative: bool, base: nat, prec: nat, width: nat, f: Flags): string
    requires IsBase(base)
  {
    Reverse(Padded(NumberBuffer(value, base, f), prec, SignedWidth(width, negative, f), f))
  }

  lemma ShownWrites(value: nat, negative: bool, base: nat, prec: nat, width: nat, f: Flags, room: nat)
    requires IsBase(base) && room == NTOA_BUFFER_SIZE
    ensures Writes(Shown(value, negative, base, prec, width, f), value, base, f.uppercase,
                   Least(value, prec, SignedWidth(width, negative, f), f), room)
  {
    DigitsWrite(value, base, f.uppercase, room);
    var b := NumberBuffer(value, base, f);
    if f.precision && value == 0 { EmptyKept(base, room); }
    PaddedWrites(b, value, base, prec, SignedWidth(width, negative, f), f, if f.precision && value == 0 then 0 else 1, room);
  }

  lemma EmptyKept(base: nat, room: nat)
    requires IsBase(base)
    ensures ValueOf("", base) == Kept(0, base, room) == 0
  {
  }

  /** Blanks, a sign if the digits leave room for it, digits, blanks. */
  lemma NumberShape(value: nat, negative: bool, base: nat, prec: nat, width: nat, f: Flags)
    requires IsBase(base) && !f.hash
    ensures var digits := Shown(value, negative, base, prec, width, f);
            NumberText(value, negative, base, prec, width, f) == InField(FittingSign(negative, |digits|, f) + digits, width, f)
  {
    PlainNumber(value, negative, base, prec, width, f);
    FieldShown(Padded(NumberBuffer(value, base, f), prec, SignedWidth(width, negative, f), f), negative, width, f);
  }

  lemma FieldShown(p: string, negative: bool, width: nat, f: Flags)
    ensures Field(p + FittingSign(negative, |p|, f), SignedWidth(width, negative, f), f)
         == InField(FittingSign(negative, |p|, f) + Reverse(p), width, f)
  {
    ReverseSigned(p, FittingSign(negative, |p|, f));
    FieldOf(p + FittingSign(negative, |p|, f), SignedWidth(width, negative, f), f);
    if !f.left && f.zeropad { NoBlanks(FittingSign(negative, |p|, f) + Reverse(p), width, SignedWidth(width, negative, f), f); }
  }

  lemma FieldOf(buf: string, w: nat, f: Flags)
    ensures Field(buf, w, f) == InField(Reverse(buf), w, f)
  {
    assert "" + Reverse(buf) == Reverse(buf) && Reverse(buf) + "" == Reverse(buf);
  }

  lemma NoBlanks(text: string, width: nat, w: nat, f: Flags)
    requires !f.left && f.zeropad
    ensures InField(text, w, f) == InField(text, width, f)
  {
  }

  /** Blanks before the text, or behind it with '-'; none in a field padded with zeros. */
  function InField(text: string, width: nat, f: Flags): string
  {
    if f.left then text + Repeat(' ', width - |text|)
    else if f.zeropad then text
    else Repeat(' ', width - |text|) + text
  }

  lemma InFieldAt(text: string, width: nat, f: Flags)
    ensures var r := InField(text, width, f);
            var from := if f.left then 0 else |r| - |text|;
            && |r| == (if f.left || !f.zeropad then Max(width, |text|) else |text|)
            && forall i | 0 <= i < |r| :: r[i] == if from <= i < from + |text| then text[i - from] else ' '
  {
  }

  // ----- How much 32 digits can hold -----

  lemma {:induction false} PowerSum(base: nat, a: nat, b: nat)
    ensures Power(base, a + b) == Power(base, a) * Power(base, b)
    decreases a
  {
    if a > 0 {
      PowerSum(base, a - 1, b);
      assert base * (Power(base, a - 1) * Power(base, b)) == base * Power(base, a - 1) * Power(base, b);
    }
  }

  lemma EightDigits(base: nat)
    requires IsBase(base)
    ensures Power(base, 8) == if base == 2 then 0x100 else if base == 8 then 0x100_0000 else if base == 10 then 100000000 else 0x1_0000_0000
  {
    assert Power(base, 2) == base * base;
    PowerSum(base, 2, 2);
    PowerSum(base, 4, 4);
  }

  lemma SixteenDigits(base: nat)
    requires IsBase(base)
    ensures base == 2 ==> Power(base, 16) == 0x1_0000
    ensures base != 2 ==> Power(base, 16) >= 0x1_0000_0000
  {
    EightDigits(base);
    PowerSum(base, 8, 8);
  }

  lemma Squared(p: nat, low: nat)
    requires p >= low
    ensures p * p >= low * low
  {
    assert p * p - low * low == (p - low) * (p - low) + 2 * low * (p - low);
  }

  /** Everything of 64 bits in the bases 8, 10 and 16, and the low 32 bits in base 2. */
  lemma Room(value: nat, base: nat, room: nat)
    requires IsBase(base) && value < 0x1_0000_0000_0000_0000 && room == 32
    ensures Kept(value, base, room) == if base == 2 then value % 0x1_0000_0000 else value
  {
    RoomPower(base, room);
    KeptIs(value, base, room, Power(base, room));
  }

  lemma KeptIs(value: nat, base: nat, room: nat, p: nat)
    requires p == Power(base, room) > 0
    ensures Kept(value, base, room) == value % p && (value < p ==> value % p == value)
  {
    if value < p { DivUnique(value, 0, p, value); }
  }

  lemma RoomPower(base: nat, room: nat)
    requires IsBase(base) && room == 32
    ensures if base == 2 then Power(base, room) == 0x1_0000_0000 else Power(base, room) >= 0x1_0000_0000_0000_0000
  {
    SixteenDigits(base);
    PowerSum(base, 16, 16);
    if base != 2 { Squared(Power(base, 16), 0x1_0000_0000); }
  }

  // ----- Unsigned conversions -----

  /** The argument as an unsigned number of the width that the length modifier names: hh, h, none,
      or one of l, ll, j, z, t. */
  function Word(arg: int, l: Length): (v: nat)
    ensures v < 0x1_0000_0000_0000_0000
  {
    match l
    case Char => arg % 0x100
    case Short => arg % 0x1_0000
    case Plain => arg % 0x1_0000_0000
    case Long => arg % 0x1_0000_0000_0000_0000
  }

  /** '0' does not count with a precision. */
  function FieldFlags(f: Flags): Flags {
    f.(zeropad := f.zeropad && !f.precision)
  }

  /** The digits stand for the number in the base, and are as many as asked for, or as needed. */
  predicate Stands(digits: string, value: nat, base: nat, uppercase: bool, least: nat) {
    && Digital(digits, base, uppercase) && Numeral(digits, base) == value
    && least <= |digits| <= 32 && (|digits| > least ==> digits[0] != '0')
  }

  lemma UnsignedText(c: char, arg: int, d: Directive, base: nat, v: nat)
    requires IsInteger(c) && !IsSigned(c) && base == BaseOf(c) && (!d.flags.hash || base == 10)
    requires v == Unsigned(arg, d.flags.length)
    ensures var digits := Shown(v, false, base, d.prec, d.width, IntegerFlags(c, d.flags));
            IntegerText(c, arg, d) == InField(digits, d.width, FieldFlags(d.flags))
  {
    var f := IntegerFlags(c, d.flags);
    NumberShape(v, false, base, d.prec, d.width, f);
    var digits := Shown(v, false, base, d.prec, d.width, f);
    assert "" + digits == digits;
  }

  /** The integer conversions print the first argument left. */
  lemma IntegerPrinted(c: char, d: Directive)
    requires c == 'd' || c == 'i' || c == 'u' || c == 'x' || c == 'X' || c == 'o' || c == 'b'
    ensures d.args != [] && d.args[0].Int? ==> Converted(c, d) == IntegerText(c, d.args[0].value, d)
  {
  }

  /** %x prints the argument in base 16 with small letters, %X with capital ones, %o in base 8, %u in
      base 10 and %b in base 2; of more than 32 bits %b prints the low 32. */
  lemma UnsignedMeaning(c: char, arg: int, d: Directive) returns (digits: string)
    requires c == 'x' || c == 'X' || c == 'o' || c == 'b' || c == 'u'
    requires !d.flags.hash || c == 'u'
    ensures IntegerText(c, arg, d) == InField(digits, d.width, FieldFlags(d.flags))
    ensures var v := Word(arg, d.flags.length);
            var least := Least(v, d.prec, d.width, FieldFlags(d.flags));
            && (c == 'x' ==> Stands(digits, v, 16, false, least))
            && (c == 'X' ==> Stands(digits, v, 16, true, least))
            && (c == 'o' ==> Stands(digits, v, 8, false, least))
            && (c == 'u' ==> Stands(digits, v, 10, false, least))
            && (c == 'b' ==> Digital(digits, 2, false) && Numeral(digits, 2) == v % 0x1_0000_0000)
            && (c == 'b' && v < 0x1_0000_0000 ==> Stands(digits, v, 2, false, least))
  {
    var v := Word(arg, d.flags.length);
    digits := UnsignedDigits(c, arg, d, BaseOf(c), v, c == 'X');
  }

  lemma UnsignedDigits(c: char, arg: int, d: Directive, base: nat, v: nat, uppercase: bool) returns (digits: string)
    requires IsInteger(c) && !IsSigned(c) && base == BaseOf(c) && (!d.flags.hash || base == 10) && uppercase == (c == 'X')
    requires v == Unsigned(arg, d.flags.length) < 0x1_0000_0000_0000_0000
    ensures IntegerText(c, arg, d) == InField(digits, d.width, FieldFlags(d.flags))
    ensures var least := Least(v, d.prec, d.width, FieldFlags(d.flags));
            && (base != 2 || v < 0x1_0000_0000 ==> Stands(digits, v, base, uppercase, least))
            && (base == 2 ==> Digital(digits, 2, uppercase) && Numeral(digits, 2) == v % 0x1_0000_0000)
  {
    var f := IntegerFlags(c, d.flags);
    UnsignedText(c, arg, d, base, v);
    digits := Shown(v, false, base, d.prec, d.width, f);
    ShownStands(v, base, d.prec, d.width, f, digits);
    LeastSame(v, d.prec, d.width, f, FieldFlags(d.flags));
  }

  lemma LeastSame(v: nat, prec: nat, width: nat, f: Flags, g: Flags)
    requires f.left == g.left && f.zeropad == g.zeropad && f.precision == g.precision
    ensures Least(v, prec, width, f) == Least(v, prec, width, g)
  {
  }

  lemma ShownStands(v: nat, base: nat, prec: nat, width: nat, f: Flags, digits: string)
    requires IsBase(base) && v < 0x1_0000_0000_0000_0000 && !f.plus && !f.space
    requires digits == Shown(v, false, base, prec, width, f)
    ensures base != 2 || v < 0x1_0000_0000 ==> Stands(digits, v, base, f.uppercase, Least(v, prec, width, f))
    ensures base == 2 ==> Digital(digits, 2, f.uppercase) && Numeral(digits, 2) == v % 0x1_0000_0000
  {
    NoSignWidth(width, f);
    ShownWrites(v, false, base, prec, width, f, NTOA_BUFFER_SIZE);
    WritesStands(digits, v, base, f.uppercase, Least(v, prec, width, f), NTOA_BUFFER_SIZE);
  }

  lemma NoSignWidth(width: nat, f: Flags)
    requires !f.plus && !f.space
    ensures SignedWidth(width, false, f) == width
  {
  }

  /** Thirty-two digits are enough, but for base 2. */
  lemma WritesStands(digits: string, v: nat, base: nat, uppercase: bool, least: nat, room: nat)
    requires IsBase(base) && v < 0x1_0000_0000_0000_0000 && room == 32 && Writes(digits, v, base, uppercase, least, room)
    ensures base != 2 || v < 0x1_0000_0000 ==> Stands(digits, v, base, uppercase, least)
    ensures base == 2 ==> Digital(digits, 2, uppercase) && Numeral(digits, 2) == v % 0x1_0000_0000
  {
    Room(v, base, room);
    if base == 2 && v < 0x1_0000_0000 { DivUnique(v, 0, 0x1_0000_0000, v); }
    KeptStands(digits, v, base, uppercase, least, room, Kept(v, base, room));
  }

  lemma KeptStands(digits: string, v: nat, base: nat, uppercase: bool, least: nat, room: nat, kept: nat)
    requires IsBase(base) && room == 32 && Writes(digits, v, base, uppercase, least, room) && kept == Kept(v, base, room)
    ensures Digital(digits, base, uppercase) && Numeral(digits, base) == kept
    ensures kept == v ==> Stands(digits, v, base, uppercase, least)
  {
  }

  /** %lb of 2^32 prints nothing but zeros. */
  lemma BinaryCut(d: Directive) returns (digits: string)
    requires d.flags == NO_FLAGS.(length := Long)
    ensures IntegerText('b', 0x1_0000_0000, d) == InField(digits, d.width, d.flags) && Numeral(digits, 2) == 0
  {
    digits := UnsignedMeaning('b', 0x1_0000_0000, d);
  }

  // ----- Signed conversions -----

  /** `v` is the argument as a signed number of the width that the length modifier names. */
  predicate SignedWord(v: int, arg: int, l: Length) {
    match l
    case Char => -0x80 <= v < 0x80 && (arg - v) % 0x100 == 0
    case Short => -0x8000 <= v < 0x8000 && (arg - v) % 0x1_0000 == 0
    case Plain => -0x8000_0000 <= v < 0x8000_0000 && (arg - v) % 0x1_0000_0000 == 0
    case Long => -0x8000_0000_0000_0000 <= v < 0x8000_0000_0000_0000 && (arg - v) % 0x1_0000_0000_0000_0000 == 0
  }

  lemma AsSignedIs(arg: int, l: Length)
    ensures SignedWord(AsSigned(arg, l), arg, l)
  {
    match l
    case Char => Congruent(arg, 0x100);
    case Short => Congruent(arg, 0x1_0000);
    case Plain => Congruent(arg, 0x1_0000_0000);
    case Long => Congruent(arg, 0x1_0000_0000_0000_0000);
  }

  lemma Congruent(arg: int, m: nat)
    requires m > 0
    ensures (arg - arg % m) % m == 0 && (arg - (arg % m - m)) % m == 0
  {
    var q := arg / m;
    assert arg == q * m + arg % m;
    Multiple(q, m);
    Multiple(q + 1, m);
    assert (q + 1) * m == q * m + m;
  }

  lemma Multiple(q: int, m: nat)
    requires m > 0
    ensures q * m % m == 0
  {
    assert q * m == (q * m) / m * m + q * m % m;
    QuotientsEqual(q, (q * m) / m, m, 0, q * m % m);
  }

  /** The character before the digits. */
  function SignOf(v: int, f: Flags): string {
    if v < 0 then "-" else if f.plus then "+" else if f.space then " " else ""
  }

  /** A sign takes one place of a field padded with zeros. */
  function ZeroWidth(v: int, width: nat, f: Flags): nat {
    if width > 0 && SignOf(v, f) != "" && f.zeropad && !f.left then width - 1 else width
  }

  /** %d and %i print the argument in base 10, after its sign unless 32 digits leave no room. */
  lemma SignedMeaning(c: char, arg: int, d: Directive) returns (v: int, digits: string)
    requires c == 'd' || c == 'i'
    ensures SignedWord(v, arg, d.flags.length)
    ensures var f, m := FieldFlags(d.flags), if v < 0 then -v else v;
            && Stands(digits, m, 10, false, Least(m, d.prec, ZeroWidth(v, d.width, f), f))
            && IntegerText(c, arg, d) == InField((if |digits| < 32 then SignOf(v, d.flags) else "") + digits, d.width, f)
  {
    v := AsSigned(arg, d.flags.length);
    AsSignedIs(arg, d.flags.length);
    var m := if v < 0 then -v else v;
    digits := SignedDigits(c, arg, d, v, m);
  }

  lemma SignedDigits(c: char, arg: int, d: Directive, v: int, m: nat) returns (digits: string)
    requires IsSigned(c) && BaseOf(c) == 10 && c != 'X' && v == AsSigned(arg, d.flags.length) && m == (if v < 0 then -v else v)
    requires m < 0x1_0000_0000_0000_0000
    ensures var f := FieldFlags(d.flags);
            && Stands(digits, m, 10, false, Least(m, d.prec, ZeroWidth(v, d.width, f), f))
            && IntegerText(c, arg, d) == InField((if |digits| < 32 then SignOf(v, d.flags) else "") + digits, d.width, f)
  {
    var f := IntegerFlags(c, d.flags);
    digits := Shown(m, v < 0, 10, d.prec, d.width, f);
    SignedText(c, arg, d, v, m, f, digits);
    SignFits(v, |digits|, f, d.flags);
    SignedStands(m, v, d.prec, d.width, f, FieldFlags(d.flags), digits);
  }

  lemma SignedText(c: char, arg: int, d: Directive, v: int, m: nat, f: Flags, digits: string)
    requires IsSigned(c) && BaseOf(c) == 10 && v == AsSigned(arg, d.flags.length) && m == (if v < 0 then -v else v)
    requires f == IntegerFlags(c, d.flags) && digits == Shown(m, v < 0, 10, d.prec, d.width, f)
    ensures IntegerText(c, arg, d) == InField(FittingSign(v < 0, |digits|, f) + digits, d.width, FieldFlags(d.flags))
  {
    SignedNumber(c, arg, d, v, m, f, BaseOf(c));
    NumberShape(m, v < 0, 10, d.prec, d.width, f);
    SameField(FittingSign(v < 0, |digits|, f) + digits, d.width, f, FieldFlags(d.flags));
  }

  lemma SignedNumber(c: char, arg: int, d: Directive, v: int, m: nat, f: Flags, base: nat)
    requires IsSigned(c) && base == BaseOf(c) && v == AsSigned(arg, d.flags.length) && m == (if v < 0 then -v else v)
    requires f == IntegerFlags(c, d.flags)
    ensures IntegerText(c, arg, d) == NumberText(m, v < 0, base, d.prec, d.width, f)
  {
    assert Magnitude(c, arg, f.length) == (m, v < 0);
  }

  lemma SameField(text: string, width: nat, f: Flags, g: Flags)
    requires f.left == g.left && f.zeropad == g.zeropad
    ensures InField(text, width, f) == InField(text, width, g)
  {
  }

  lemma SignFits(v: int, len: nat, f: Flags, g: Flags)
    requires f.plus == g.plus && f.space == g.space
    ensures FittingSign(v < 0, len, f) == if len < 32 then SignOf(v, g) else ""
  {
  }

  lemma SignedStands(m: nat, v: int, prec: nat, width: nat, f: Flags, g: Flags, digits: string)
    requires m < 0x1_0000_0000_0000_0000 && !f.uppercase && digits == Shown(m, v < 0, 10, prec, width, f)
    requires f.left == g.left && f.zeropad == g.zeropad && f.precision == g.precision && f.plus == g.plus && f.space == g.space
    ensures Stands(digits, m, 10, false, Least(m, prec, ZeroWidth(v, width, g), g))
  {
    ShownWrites(m, v < 0, 10, prec, width, f, NTOA_BUFFER_SIZE);
    WritesStands(digits, m, 10, false, Least(m, prec, SignedWidth(width, v < 0, f), f), NTOA_BUFFER_SIZE);
    assert SignedWidth(width, v < 0, f) == ZeroWidth(v, width, g);
    LeastSame(m, prec, ZeroWidth(v, width, g), f, g);
  }

  // ----- The prefix of the '#' flag -----

  /** A number that is not 0 and does not fill its field gets 0x, 0X, 0b or 0 before its digits. */
  lemma HashedMeaning(c: char, arg: int, d: Directive) returns (digits: string)
    requires (c == 'x' || c == 'X' || c == 'o' || c == 'b') && d.flags.hash
    requires 0 < Word(arg, d.flags.length) && (c == 'b' ==> Word(arg, d.flags.length) < 0x1_0000_0000)
    ensures var v, f := Word(arg, d.flags.length), FieldFlags(d.flags);
            && Stands(digits, v, if c == 'o' then 8 else if c == 'b' then 2 else 16, c == 'X', Least(v, d.prec, d.width, f))
            && ((f.precision || (|digits| != d.width && |digits| != d.prec)) && |digits| <= 30 ==>
                IntegerText(c, arg, d)
                == InField((if c == 'x' then "0x" else if c == 'X' then "0X" else if c == 'b' then "0b" else "0") + digits, d.width, f))
  {
    var v, f, base := Word(arg, d.flags.length), IntegerFlags(c, d.flags), BaseOf(c);
    digits := Shown(v, false, base, d.prec, d.width, f);
    ShownStands(v, base, d.prec, d.width, f, digits);
    LeastSame(v, d.prec, d.width, f, FieldFlags(d.flags));
    if (f.precision || (|digits| != d.width && |digits| != d.prec)) && |digits| <= 30 {
      HashedText(c, arg, d, v, base, f, digits);
    }
  }

  /** The flag does nothing to 0. */
  lemma HashedZero(c: char, arg: int, d: Directive)
    requires (c == 'x' || c == 'X' || c == 'o' || c == 'b') && Word(arg, d.flags.length) == 0
    ensures IntegerText(c, arg, d) == IntegerText(c, arg, d.(flags := d.flags.(hash := false)))
  {
    var g := d.flags.(hash := false);
    UnsignedNumber(c, arg, d, 0);
    UnsignedNumber(c, arg, d.(flags := g), 0);
    ZeroText(BaseOf(c), d.prec, d.width, IntegerFlags(c, d.flags), IntegerFlags(c, g));
  }

  lemma UnsignedNumber(c: char, arg: int, d: Directive, v: nat)
    requires IsInteger(c) && !IsSigned(c) && v == Unsigned(arg, d.flags.length)
    ensures IntegerText(c, arg, d) == NumberText(v, false, BaseOf(c), d.prec, d.width, IntegerFlags(c, d.flags))
  {
  }

  lemma ZeroText(base: nat, prec: nat, width: nat, f: Flags, g: Flags)
    requires IsBase(base) && f.(hash := false) == g
    ensures NumberText(0, false, base, prec, width, f) == NumberText(0, false, base, prec, width, g)
  {
  }

  lemma HashedText(c: char, arg: int, d: Directive, v: nat, base: nat, f: Flags, digits: string)
    requires IsInteger(c) && !IsSigned(c) && base == BaseOf(c) && base != 10 && d.flags.hash && f == IntegerFlags(c, d.flags)
    requires v == Unsigned(arg, d.flags.length) > 0 && digits == Shown(v, false, base, d.prec, d.width, f) && |digits| <= 30
    requires f.precision || (|digits| != d.width && |digits| != d.prec)
    ensures IntegerText(c, arg, d) == InField(PrefixOf(base, c == 'X') + digits, d.width, FieldFlags(d.flags))
  {
    HashedField(Padded(NumberBuffer(v, base, f), d.prec, d.width, f), v, base, d.prec, d.width, f);
  }

  function PrefixOf(base: nat, uppercase: bool): string {
    if base == 16 then (if uppercase then "0X" else "0x") else if base == 2 then "0b" else "0"
  }

  lemma HashedField(p: string, v: nat, base: nat, prec: nat, width: nat, f: Flags)
    requires IsBase(base) && base != 10 && f.hash && !f.plus && !f.space && v > 0 && |p| <= 30
    requires p == Padded(NumberBuffer(v, base, f), prec, width, f)
    requires f.precision || (|p| != width && |p| != prec)
    ensures NumberText(v, false, base, prec, width, f) == InField(PrefixOf(base, f.uppercase) + Reverse(p), width, f)
  {
    var h := p + BasePrefix(base, f) + "0";
    HashedIs(p, base, prec, width, f);
    UnsignedField(p, h, v, base, prec, width, f);
    FieldOf(h, width, f);
    PrefixReversed(p, base, f);
  }

  lemma UnsignedField(p: string, h: string, v: nat, base: nat, prec: nat, width: nat, f: Flags)
    requires IsBase(base) && !f.plus && !f.space && v > 0
    requires p == Padded(NumberBuffer(v, base, f), prec, width, f) && h == Hashed(p, base, prec, width, f)
    ensures NumberText(v, false, base, prec, width, f) == Field(h, width, f)
  {
    assert h + "" == h;
  }

  lemma PrefixReversed(p: string, base: nat, f: Flags)
    requires IsBase(base) && base != 10
    ensures Reverse(p + BasePrefix(base, f) + "0") == PrefixOf(base, f.uppercase) + Reverse(p)
  {
    var x := BasePrefix(base, f);
    ReversePrefix(p, x);
    assert "0" + x == PrefixOf(base, f.uppercase);
  }

  lemma HashedIs(p: string, base: nat, prec: nat, width: nat, f: Flags)
    requires f.hash && |p| <= 30 && (f.precision || (|p| != width && |p| != prec))
    ensures Hashed(p, base, prec, width, f) == p + BasePrefix(base, f) + "0"
  {
    assert p[..|p|] == p;
  }

  lemma ReversePrefix(p: string, x: string)
    requires |x| <= 1
    ensures Reverse(p + x + "0") == "0" + x + Reverse(p)
  {
    ReverseSigned(p, x);
    ReverseSigned(p + x, "0");
  }

  // ----- Characters, strings and pointers -----

  /** `r` is `text` in a field of blanks: before it, or behind it with '-'. */
  predicate Placed(r: string, text: string, width: nat, left: bool) {
    && |r| == Max(width, |text|)
    && forall i | 0 <= i < |r| ::
         var from := if left then 0 else |r| - |text|;
         r[i] == if from <= i < from + |text| then text[i - from] else ' '
  }

  /** %c prints one character, %s the text up to the precision, %p sixteen hexadecimal digits, and
      any other letter itself. */
  lemma OtherMeaning(c: char, d: Directive)
    ensures c == 'c' && d.args != [] && d.args[0].Int? && 0 <= d.args[0].value < 256 ==>
              Placed(Converted(c, d), [d.args[0].value as char], d.width, d.flags.left)
    ensures c == 's' && d.args != [] && d.args[0].Str? ==>
              var t := d.args[0].text;
              Placed(Converted(c, d), if d.flags.precision && d.prec < |t| then t[..d.prec] else t, d.width, d.flags.left)
    ensures c == '%' ==> Converted(c, d) == "%"
  {
  }

  lemma PointerMeaning(d: Directive, value: nat) returns (digits: string)
    requires d.flags == NO_FLAGS && d.args != [] && d.args[0] == Int(value) && value < 0x1_0000_0000_0000_0000 && d.prec == 0
    ensures Converted('p', d) == digits && Stands(digits, value, 16, true, 16) && |digits| == 16
  {
    digits := PointerDigits(value, 16, 16, PointerFlags(d.flags));
    PointerText(d, value);
  }

  lemma PointerText(d: Directive, value: nat)
    requires d.flags == NO_FLAGS && d.args != [] && d.args[0] == Int(value) && value < 0x1_0000_0000_0000_0000 && d.prec == 0
    ensures Converted('p', d) == NumberText(value, false, 16, 0, 16, PointerFlags(d.flags))
  {
    UnsignedOf(value);
  }

  lemma UnsignedOf(value: nat)
    requires value < 0x1_0000_0000_0000_0000
    ensures Unsigned(value, Long) == value
  {
  }

  lemma PointerDigits(value: nat, base: nat, w: nat, f: Flags) returns (digits: string)
    requires base == 16 && w == 16 && f == NO_FLAGS.(zeropad := true, uppercase := true) && value < 0x1_0000_0000_0000_0000
    ensures NumberText(value, false, base, 0, w, f) == digits && Stands(digits, value, base, true, w) && |digits| == 16
  {
    NumberShape(value, false, base, 0, w, f);
    digits := Shown(value, false, base, 0, w, f);
    ShownStands(value, base, 0, w, f, digits);
    assert "" + digits == digits && InField(digits, w, f) == digits;
    assert Least(value, 0, w, f) == w;
    SixteenAreEnough(value, digits);
  }

  lemma SixteenAreEnough(value: nat, digits: string)
    requires Stands(digits, value, 16, true, 16) && value < 0x1_0000_0000_0000_0000
    ensures |digits| == 16
  {
    EightDigits(16);
    PowerSum(16, 8, 8);
    if |digits| > 16 { LongNumeral(digits, 16, true, 16); }
  }

  /** More than `n` digits that do not begin with 0. */
  lemma LongNumeral(digits: string, base: nat, uppercase: bool, n: nat)
    requires IsBase(base) && Digital(digits, base, uppercase) && |digits| > n && digits[0] != '0'
    ensures Numeral(digits, base) >= Power(base, n)
  {
    NumeralLarge(digits, base, uppercase);
    PowerSum(base, n, |digits| - 1 - n);
    PositivePower(base, |digits| - 1 - n);
    AtLeast(Power(base, n), Power(base, |digits| - 1 - n));
  }

  lemma AtLeast(p: nat, q: nat)
    requires q >= 1
    ensures p * q >= p
  {
    assert p * q - p == p * (q - 1);
  }

  lemma {:induction false} PositivePower(base: nat, n: nat)
    requires base > 0
    ensures Power(base, n) >= 1
  {
    if n > 0 { PositivePower(base, n - 1); AtLeast(base, Power(base, n - 1)); }
  }

  /** Digits that do not begin with 0 make a number of that many digits. */
  lemma {:induction false} NumeralLarge(s: string, base: nat, uppercase: bool)
    requires IsBase(base) && Digital(s, base, uppercase) && s != "" && s[0] != '0'
    ensures Numeral(s, base) >= Power(base, |s| - 1)
    decreases |s|
  {
    var n := |s| - 1;
    assert IsDigitOf(s[0], base, uppercase) && IsDigitOf(s[n], base, uppercase);
    if n > 0 {
      NumeralLarge(s[..n], base, uppercase);
      Scaled(base, Power(base, n - 1), Numeral(s[..n], base));
      assert Power(base, n) == base * Power(base, n - 1);
    } else {
      assert s[..0] == "" && Numeral(s, base) == Numeral("", base) * base + DigitValue(s[0]);
    }
  }
}
