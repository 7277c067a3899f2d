/** Integer, character and string formatting of kernel/src/printf.c into a bounded buffer, and atoi
    of kernel/src/stdlib.c. */
module Printf {

  /** The FLAGS_ bits. */
  datatype Flags = Flags(zeropad: bool, left: bool, plus: bool, space: bool, hash: bool, uppercase: bool,
                         precision: bool, length: Length)

  datatype Length = Plain | Char | Short | Long

  const NO_FLAGS: Flags := Flags(false, false, false, false, false, false, false, Plain)

  const NTOA_BUFFER_SIZE: nat := 32

  const INT_MIN: int := -0x8000_0000
  const INT_MAX: int := 0x7FFF_FFFF

  function Min(a: int, b: int): int { if a < b then a else b }

  function Max(a: int, b: int): int { if a < b then b else a }

  function Repeat(c: char, n: int): (s: string)
    ensures |s| == Max(n, 0) && forall i | 0 <= i < |s| :: s[i] == c
  {
    if n <= 0 then "" else Repeat(c, n - 1) + [c]
  }

  function Reverse(s: string): (r: string)
    ensures |r| == |s|
  {
    if s == "" then "" else Reverse(s[1..]) + [s[0]]
  }

  // ----- Numbers -----

  function DigitChar(d: nat, uppercase: bool): char
    requires d < 16
  {
    if d < 10 then '0' + d as char else (if uppercase then 'A' else 'a') + (d - 10) as char
  }

  predicate IsBase(base: nat) {
    base == 2 || base == 8 || base == 10 || base == 16
  }

  function Div(value: nat, base: nat): (q: nat)
    requires IsBase(base)
    ensures value == q * base + Mod(value, base)
    ensures value > 0 ==> q < value
  {
    if base == 2 then value / 2 else if base == 8 then value / 8 else if base == 10 then value / 10 else value / 16
  }

  function Mod(value: nat, base: nat): (d: nat)
    requires IsBase(base)
    ensures d < base
  {
    if base == 2 then value % 2 else if base == 8 then value % 8 else if base == 10 then value % 10 else value % 16
  }

  /** The digits of `value`, least significant first, as far as there is room. */
  function Digits(value: nat, base: nat, uppercase: bool, room: nat): string
    requires IsBase(base)
    decreases room
  {
    if room == 0 then ""
    else
      [DigitChar(Mod(value, base), uppercase)]
      + if Div(value, base) == 0 then "" else Digits(Div(value, base), base, uppercase, room - 1)
  }

  /** The digit buffer of _ntoa_long. */
  function NumberBuffer(value: nat, base: nat, f: Flags): string
    requires IsBase(base)
  {
    if f.precision && value == 0 then "" else Digits(value, base, f.uppercase, NTOA_BUFFER_SIZE)
  }

  function FillZeros(buf: string, upTo: int): string {
    buf + Repeat('0', Min(upTo, NTOA_BUFFER_SIZE) - |buf|)
  }

  /** The width left after a sign has been taken out of a zero-padded field. */
  function SignedWidth(width: nat, negative: bool, f: Flags): nat {
    if !f.left && width > 0 && f.zeropad && (negative || f.plus || f.space) then width - 1 else width
  }

  function Padded(buf: string, prec: nat, width: nat, f: Flags): string {
    if f.left then buf
    else
      var b := FillZeros(buf, prec);
      if f.zeropad then FillZeros(b, width) else b
  }

  /** The digits the '#' flag takes away from a buffer that fills its width or precision, taking
      them for padding. */
  function CutDigits(len: nat, base: nat, prec: nat, width: nat, f: Flags): (cut: nat)
    ensures cut <= len
  {
    if f.hash && !f.precision && len > 0 && (len == prec || len == width) then (if len > 1 && base == 16 then 2 else 1) else 0
  }

  function BasePrefix(base: nat, f: Flags): string {
    if base == 16 then (if f.uppercase then "X" else "x") else if base == 2 then "b" else ""
  }

  /** The base prefix of the '#' flag, backwards. */
  function Hashed(buf: string, base: nat, prec: nat, width: nat, f: Flags): string {
    if !f.hash then buf
    else
      var b := buf[..|buf| - CutDigits(|buf|, base, prec, width, f)];
      var b' := if |b| < NTOA_BUFFER_SIZE then b + BasePrefix(base, f) else b;
      if |b'| < NTOA_BUFFER_SIZE then b' + "0" else b'
  }

  function Sign(negative: bool, f: Flags): string {
    if negative then "-" else if f.plus then "+" else if f.space then " " else ""
  }

  function Signed(buf: string, negative: bool, f: Flags): string {
    if |buf| < NTOA_BUFFER_SIZE then buf + Sign(negative, f) else buf
  }

  /** _out_rev: the buffer backwards, in a field. */
  function Field(buf: string, width: nat, f: Flags): string {
    (if !f.left && !f.zeropad then Repeat(' ', width - |buf|) else "")
    + Reverse(buf)
    + (if f.left then Repeat(' ', width - |buf|) else "")
  }

  /** The text of a number. */
  function NumberText(value: nat, negative: bool, base: nat, prec: nat, width: nat, flags: Flags): string
    requires IsBase(base)
  {
    var f := if value == 0 then flags.(hash := false) else flags;
    var w := SignedWidth(width, negative, f);
    var padded := Padded(NumberBuffer(value, base, f), prec, w, f);
    Field(Signed(Hashed(padded, base, prec, w, f), negative, f), w, f)
  }

  // ----- Format strings -----

  datatype Arg = Int(value: int) | Str(text: string)

  function IntOf(args: seq<Arg>): int {
    if args != [] && args[0].Int? then args[0].value else 0
  }

  function TextOf(args: seq<Arg>): string {
    if args != [] && args[0].Str? then args[0].text else ""
  }

  function Next(args: seq<Arg>): seq<Arg> {
    if args == [] then [] else args[1..]
  }

  function At(s: string, i: nat): char {
    if i < |s| then s[i] else '\0'
  }

  predicate IsDigit(c: char) {
    '0' <= c <= '9'
  }

  function FlagOf(f: Flags, c: char): Flags {
    if c == '0' then f.(zeropad := true) else if c == '-' then f.(left := true) else if c == '+' then f.(plus := true)
    else if c == ' ' then f.(space := true) else f.(hash := true)
  }

  predicate IsFlag(c: char) {
    c == '0' || c == '-' || c == '+' || c == ' ' || c == '#'
  }

  function SkipFlags(format: string, pos: nat, f: Flags): (r: (Flags, nat))
    ensures r.1 >= pos
    decreases |format| - pos
  {
    if pos < |format| && IsFlag(format[pos]) then SkipFlags(format, pos + 1, FlagOf(f, format[pos])) else (f, pos)
  }

  /** _atoi: the number at `pos`, after the digits already read, and where it ends. */
  function NumberAt(format: string, pos: nat, acc: nat): (r: (nat, nat))
    ensures r.1 >= pos
    decreases |format| - pos
  {
    if pos < |format| && IsDigit(format[pos])
    then NumberAt(format, pos + 1, acc * 10 + (format[pos] as int - '0' as int)) else (acc, pos)
  }

  /** A conversion being read: what is known so far, where reading goes on, the arguments left. */
  datatype Directive = Directive(flags: Flags, width: nat, prec: nat, pos: nat, args: seq<Arg>)

  function ReadWidth(format: string, d: Directive): (r: Directive)
    ensures r.pos >= d.pos
  {
    if IsDigit(At(format, d.pos)) then
      var n := NumberAt(format, d.pos, 0);
      d.(width := n.0, pos := n.1)
    else if At(format, d.pos) == '*' then
      var w := IntOf(d.args);
      d.(flags := if w < 0 then d.flags.(left := true) else d.flags, width := if w < 0 then -w else w,
         pos := d.pos + 1, args := Next(d.args))
    else d
  }

  function ReadPrecision(format: string, d: Directive): (r: Directive)
    ensures r.pos >= d.pos
  {
    if At(format, d.pos) != '.' then d
    else
      var e := d.(flags := d.flags.(precision := true), pos := d.pos + 1);
      if IsDigit(At(format, e.pos)) then
        var n := NumberAt(format, e.pos, 0);
        e.(prec := n.0, pos := n.1)
      else if At(format, e.pos) == '*' then
        e.(prec := Max(IntOf(e.args), 0), pos := e.pos + 1, args := Next(e.args))
      else e
  }

  function ReadLength(format: string, d: Directive): (r: Directive)
    ensures r.pos >= d.pos
  {
    var c := At(format, d.pos);
    if c == 'l' then d.(flags := d.flags.(length := Long), pos := d.pos + if At(format, d.pos + 1) == 'l' then 2 else 1)
    else if c == 'h' then
      if At(format, d.pos + 1) == 'h' then d.(flags := d.flags.(length := Char), pos := d.pos + 2)
      else d.(flags := d.flags.(length := Short), pos := d.pos + 1)
    else if c == 't' || c == 'j' || c == 'z' then d.(flags := d.flags.(length := Long), pos := d.pos + 1)
    else d
  }

  /** Everything after '%' up to the conversion letter. */
  function Read(format: string, pos: nat, args: seq<Arg>): (r: Directive)
    ensures r.pos >= pos
  {
    var flags := SkipFlags(format, pos, NO_FLAGS);
    ReadLength(format, ReadPrecision(format, ReadWidth(format, Directive(flags.0, 0, 0, flags.1, args))))
  }

  function Modulus(l: Length): int {
    match l
    case Plain => 0x1_0000_0000
    case Char => 0x100
    case Short => 0x1_0000
    case Long => 0x1_0000_0000_0000_0000
  }

  /** An argument as an unsigned, or a signed, integer of the given length. */
  function Unsigned(v: int, l: Length): (u: nat)
    ensures u < Modulus(l)
    ensures 0 <= v < Modulus(l) ==> u == v
  {
    v % Modulus(l)
  }

  function AsSigned(v: int, l: Length): (i: int)
    ensures -Modulus(l) <= 2 * i < Modulus(l)
    ensures -Modulus(l) <= 2 * v < Modulus(l) ==> i == v
  {
    var u := v % Modulus(l);
    if 2 * u >= Modulus(l) then u - Modulus(l) else u
  }

  predicate IsInteger(c: char) {
    c == 'd' || c == 'i' || c == 'u' || c == 'x' || c == 'X' || c == 'o' || c == 'b'
  }

  predicate IsSigned(c: char) {
    c == 'd' || c == 'i'
  }

  function BaseOf(c: char): (base: nat)
    ensures IsBase(base)
  {
    if c == 'x' || c == 'X' then 16 else if c == 'o' then 8 else if c == 'b' then 2 else 10
  }

  function IntegerFlags(c: char, flags: Flags): Flags {
    var f := flags.(hash := flags.hash && BaseOf(c) != 10, uppercase := c == 'X',
                    zeropad := flags.zeropad && !flags.precision);
    if IsSigned(c) then f else f.(plus := false, space := false)
  }

  /** The absolute value an integer conversion prints, and whether it is negative. */
  function Magnitude(c: char, arg: int, l: Length): (nat, bool) {
    if IsSigned(c) then
      var value := AsSigned(arg, l);
      (if value > 0 then value else -value, value < 0)
    else (Unsigned(arg, l), false)
  }

  function IntegerText(c: char, arg: int, d: Directive): string {
    var f := IntegerFlags(c, d.flags);
    var m := Magnitude(c, arg, f.length);
    NumberText(m.0, m.1, BaseOf(c), d.prec, d.width, f)
  }

  /** Characters in a field of spaces. */
  function Spaced(text: string, width: nat, left: bool): string {
    if left then text + Repeat(' ', width - |text|) else Repeat(' ', width - |text|) + text
  }

  function Cut(text: string, d: Directive): string {
    if d.flags.precision && d.prec < |text| then text[..d.prec] else text
  }

  function CharOf(v: int): char {
    (v % 256) as char
  }

  function PointerFlags(f: Flags): Flags {
    f.(zeropad := true, uppercase := true)
  }

  /** What conversion letter `c` writes. */
  function Converted(c: char, d: Directive): string {
    if IsInteger(c) then IntegerText(c, IntOf(d.args), d)
    else if c == 'c' then Spaced([CharOf(IntOf(d.args))], d.width, d.flags.left)
    else if c == 's' then Spaced(Cut(TextOf(d.args), d), d.width, d.flags.left)
    else if c == 'p' then NumberText(Unsigned(IntOf(d.args), Long), false, 16, d.prec, 16, PointerFlags(d.flags))
    else [c]
  }

  predicate TakesArgument(c: char) {
    IsInteger(c) || c == 'c' || c == 's' || c == 'p'
  }

  /** The arguments left after conversion letter `c`. */
  function After(c: char, d: Directive): seq<Arg> {
    if TakesArgument(c) then Next(d.args) else d.args
  }

  /** What one turn of the loop writes, and where it leaves the format and the arguments. */
  datatype Turn = Turn(text: string, pos: nat, args: seq<Arg>)

  function TurnAt(format: string, pos: nat, args: seq<Arg>): (t: Turn)
    requires pos < |format|
    ensures t.pos > pos
  {
    if format[pos] != '%' then Turn([format[pos]], pos + 1, args)
    else
      var d := Read(format, pos + 1, args);
      var c := At(format, d.pos);
      Turn(Converted(c, d), d.pos + 1, After(c, d))
  }

  /** The whole output, without any limit. */
  function Output(format: string, pos: nat, args: seq<Arg>): string
    decreases |format| - pos
  {
    if pos >= |format| then ""
    else
      var t := TurnAt(format, pos, args);
      t.text + Output(format, t.pos, t.args)
  }

  // ----- The output buffer -----

  /** `now` is the buffer after the characters of `text` were offered to it: those below the limit
      are stored, and nothing else has changed. */
  predicate Stored(now: string, initial: string, limit: nat, text: string) {
    && |now| == |initial|
    && forall i | 0 <= i < |now| :: now[i] == if i < |text| && i < limit then text[i] else initial[i]
  }

  class Sink {
    const buffer: array<char>
    const maxlen: nat
    var idx: nat
    ghost const initial: string
    /** Everything put so far, as if there were no limit. */
    ghost var text: string

    ghost predicate Valid()
      reads this, buffer
    {
      maxlen <= buffer.Length && idx == |text| && Stored(buffer[..], initial, maxlen, text)
    }

    constructor (buffer: array<char>, maxlen: nat)
      requires maxlen <= buffer.Length
      ensures Valid() && text == "" && this.buffer == buffer && this.maxlen == maxlen && initial == buffer[..]
    {
      this.buffer, this.maxlen, idx := buffer, maxlen, 0;
      initial, text := buffer[..], "";
    }

    /** out(c, buffer, idx++, maxlen) with _out_buffer. */
    method Put(c: char)
      requires Valid()
      modifies this`idx, this`text, buffer
      ensures Valid() && text == old(text) + [c]
    {
      if idx < maxlen { buffer[idx] := c; }
      idx := idx + 1;
      text := text + [c];
    }

    method PutTimes(c: char, n: int)
      requires Valid()
      modifies this`idx, this`text, buffer
      ensures Valid() && text == old(text) + Repeat(c, n)
    {
      var i := 0;
      while i < n
        invariant 0 <= i <= Max(n, 0) && Valid() && text == old(text) + Repeat(c, i)
      {
        Put(c);
        i := i + 1;
      }
      assert Repeat(c, n) == Repeat(c, i);
    }

    method OutRev(buf: string, width: nat, f: Flags)
      requires Valid()
      modifies this`idx, this`text, buffer
      ensures Valid() && text == old(text) + Field(buf, width, f)
    {
      if !f.left && !f.zeropad { PutTimes(' ', width - |buf|); }
      PutReversed(buf);
      if f.left { PutTimes(' ', width - |buf|); }
    }

    method PutReversed(buf: string)
      requires Valid()
      modifies this`idx, this`text, buffer
      ensures Valid() && text == old(text) + Reverse(buf)
    {
      var len := |buf|;
      while len > 0
        invariant 0 <= len <= |buf| && Valid() && text == old(text) + Reverse(buf[len..])
      {
        len := len - 1;
        assert buf[len..][1..] == buf[len + 1..];
        Put(buf[len]);
      }
      assert buf[0..] == buf;
    }

    method NtoaFormat(digits: string, negative: bool, base: nat, prec: nat, width: nat, f: Flags)
      requires Valid()
      modifies this`idx, this`text, buffer
      ensures Valid()
      ensures var w := SignedWidth(width, negative, f);
              text == old(text) + Field(Signed(Hashed(Padded(digits, prec, w, f), base, prec, w, f), negative, f), w, f)
    {
      var w, buf := width, digits;
      if !f.left {
        if width != 0 && f.zeropad && (negative || f.plus || f.space) { w := w - 1; }
        buf := ZeroPad(buf, prec);
        if f.zeropad { buf := ZeroPad(buf, w); }
      }
      buf := AddHash(buf, base, prec, w, f);
      buf := AddSign(buf, negative, f);
      OutRev(buf, w, f);
    }

    /** _ntoa_long and _ntoa_long_long. */
    method NtoaLong(value: nat, negative: bool, base: nat, prec: nat, width: nat, flags: Flags)
      requires Valid() && IsBase(base)
      modifies this`idx, this`text, buffer
      ensures Valid() && text == old(text) + NumberText(value, negative, base, prec, width, flags)
    {
      var f := if value == 0 then flags.(hash := false) else flags;
      var buf := "";
      if !f.precision || value != 0 { buf := ToDigits(value, base, f.uppercase, NTOA_BUFFER_SIZE); }
      NtoaFormat(buf, negative, base, prec, width, f);
    }

    method PutText(t: string)
      requires Valid()
      modifies this`idx, this`text, buffer
      ensures Valid() && text == old(text) + t
    {
      for i := 0 to |t|
        invariant Valid() && text == old(text) + t[..i]
      {
        Put(t[i]);
        assert t[..i + 1] == t[..i] + [t[i]];
      }
      assert t[..|t|] == t;
    }

    /** %c and %s: padding before or after. */
    method PutSpaced(t: string, width: nat, left: bool)
      requires Valid()
      modifies this`idx, this`text, buffer
      ensures Valid() && text == old(text) + Spaced(t, width, left)
    {
      if !left { PutTimes(' ', width - |t|); }
      PutText(t);
      if left { PutTimes(' ', width - |t|); }
    }

    method PutInteger(c: char, d: Directive)
      requires Valid()
      modifies this`idx, this`text, buffer
      ensures Valid() && text == old(text) + IntegerText(c, IntOf(d.args), d)
    {
      var f := IntegerFlags(c, d.flags);
      var m := Magnitude(c, IntOf(d.args), f.length);
      NtoaLong(m.0, m.1, BaseOf(c), d.prec, d.width, f);
    }

    method Convert(c: char, d: Directive)
      requires Valid()
      modifies this`idx, this`text, buffer
      ensures Valid() && text == old(text) + Converted(c, d)
    {
      if IsInteger(c) {
        PutInteger(c, d);
      } else if c == 'c' {
        PutSpaced([CharOf(IntOf(d.args))], d.width, d.flags.left);
      } else if c == 's' {
        PutSpaced(Cut(TextOf(d.args), d), d.width, d.flags.left);
      } else if c == 'p' {
        NtoaLong(Unsigned(IntOf(d.args), Long), false, 16, d.prec, 16, PointerFlags(d.flags));
      } else {
        Put(c);
      }
    }

    /** The loop of _vsnprintf. */
    method PutFormat(format: string, arguments: seq<Arg>)
      requires Valid() && text == ""
      modifies this`idx, this`text, buffer
      ensures Valid() && text == Output(format, 0, arguments)
    {
      var pos: nat, args := 0, arguments;
      ghost var all := Output(format, 0, arguments);
      assert "" + all == all;
      while pos < |format|
        invariant Valid() && Remaining(all, text, format, pos, args)
        decreases |format| - pos
      {
        OneTurn(all, text, format, pos, args, TurnAt(format, pos, args));
        pos, args := PutTurn(format, pos, args);
      }
      assert text + "" == text;
    }

    /** One turn of the loop: a plain character or a conversion. */
    method PutTurn(format: string, pos: nat, args: seq<Arg>) returns (pos': nat, args': seq<Arg>)
      requires Valid() && pos < |format|
      modifies this`idx, this`text, buffer
      ensures Valid()
      ensures var t := TurnAt(format, pos, args); text == old(text) + t.text && pos' == t.pos && args' == t.args
    {
      if format[pos] != '%' {
        Put(format[pos]);
        return pos + 1, args;
      }
      var d := ReadDirective(format, pos + 1, args);
      var c := At(format, d.pos);
      Convert(c, d);
      pos', args' := d.pos + 1, After(c, d);
    }
  }

  /** What was put so far and the output of the rest of the format make the whole output. */
  predicate Remaining(all: string, text: string, format: string, pos: nat, args: seq<Arg>) {
    all == text + Output(format, pos, args)
  }

  lemma OneTurn(all: string, text: string, format: string, pos: nat, args: seq<Arg>, t: Turn)
    requires Remaining(all, text, format, pos, args) && pos < |format| && t == TurnAt(format, pos, args)
    ensures Remaining(all, text + t.text, format, t.pos, t.args)
  {
    assert text + (t.text + Output(format, t.pos, t.args)) == text + t.text + Output(format, t.pos, t.args);
  }

  method ReadDirective(format: string, start: nat, args: seq<Arg>) returns (d: Directive)
    ensures d == Read(format, start, args)
  {
    var pos, flags := start, NO_FLAGS;
    while IsFlag(At(format, pos))
      invariant SkipFlags(format, start, NO_FLAGS) == SkipFlags(format, pos, flags)
      decreases |format| - pos
    {
      flags := FlagOf(flags, format[pos]);
      pos := pos + 1;
    }
    d := ReadLength(format, ReadPrecision(format, ReadWidth(format, Directive(flags, 0, 0, pos, args))));
  }

  /** snprintf: the longest prefix that leaves room for the terminator, the terminator, and nothing
      beyond; the answer is the length of the whole output. */
  method Snprintf(buffer: array<char>, count: nat, format: string, args: seq<Arg>) returns (r: nat)
    requires count <= buffer.Length
    modifies buffer
    ensures r == |Output(format, 0, args)|
    ensures count == 0 ==> buffer[..] == old(buffer[..])
    ensures count > 0 ==>
              var n := Min(r, count - 1);
              && buffer[..n] == Output(format, 0, args)[..n] && buffer[n] == '\0'
              && buffer[n + 1..] == old(buffer[n + 1..])
  {
    var sink := new Sink(buffer, count);
    sink.PutFormat(format, args);
    if count > 0 {
      buffer[if sink.idx < count then sink.idx else count - 1] := '\0';
    }
    r := sink.idx;
  }

  method ZeroPad(buf: string, upTo: nat) returns (r: string)
    ensures r == FillZeros(buf, upTo)
  {
    r := buf;
    while |r| < upTo && |r| < NTOA_BUFFER_SIZE
      invariant |buf| <= |r| && (|r| > |buf| ==> |r| <= Min(upTo, NTOA_BUFFER_SIZE))
      invariant r == buf + Repeat('0', |r| - |buf|)
      decreases upTo - |r|
    {
      r := r + "0";
    }
  }

  /** The handling of the '#' flag. */
  method AddHash(digits: string, base: nat, prec: nat, w: nat, f: Flags) returns (buf: string)
    ensures buf == Hashed(digits, base, prec, w, f)
  {
    buf := digits;
    if f.hash {
      if !f.precision && |buf| > 0 && (|buf| == prec || |buf| == w) {
        buf := buf[..|buf| - 1];
        if |buf| > 0 && base == 16 { buf := buf[..|buf| - 1]; }
      }
      if base == 16 && !f.uppercase && |buf| < NTOA_BUFFER_SIZE {
        buf := buf + "x";
      } else if base == 16 && f.uppercase && |buf| < NTOA_BUFFER_SIZE {
        buf := buf + "X";
      } else if base == 2 && |buf| < NTOA_BUFFER_SIZE {
        buf := buf + "b";
      }
      if |buf| < NTOA_BUFFER_SIZE { buf := buf + "0"; }
    }
  }

  method AddSign(digits: string, negative: bool, f: Flags) returns (buf: string)
    ensures buf == Signed(digits, negative, f)
  {
    buf := digits;
    if |buf| < NTOA_BUFFER_SIZE {
      if negative { buf := buf + "-"; }
      else if f.plus { buf := buf + "+"; }
      else if f.space { buf := buf + " "; }
    }
    assert digits + "" == digits;
  }

  /** The digit loop. */
  method ToDigits(value: nat, base: nat, uppercase: bool, room: nat) returns (buf: string)
    requires IsBase(base) && room > 0
    ensures buf == Digits(value, base, uppercase, room)
  {
    DigitsStep(value, base, uppercase, room);
    buf := [DigitChar(Mod(value, base), uppercase)];
    var v := Div(value, base);
    while v != 0 && |buf| < room
      invariant 1 <= |buf| <= room && DigitsTo(value, base, uppercase, room, buf, v)
      decreases room - |buf|
    {
      DigitsToStep(value, base, uppercase, room, buf, v);
      buf := buf + [DigitChar(Mod(v, base), uppercase)];
      v := Div(v, base);
    }
    assert buf + "" == buf;
  }

  /** `buf` holds the first digits of `value`, and `v` is what is left of it. */
  predicate DigitsTo(value: nat, base: nat, uppercase: bool, room: nat, buf: string, v: nat)
    requires IsBase(base) && |buf| <= room
  {
    Digits(value, base, uppercase, room) == buf + MoreDigits(v, base, uppercase, room - |buf|)
  }

  lemma DigitsToStep(value: nat, base: nat, uppercase: bool, room: nat, buf: string, v: nat)
    requires IsBase(base) && v != 0 && |buf| < room && DigitsTo(value, base, uppercase, room, buf, v)
    ensures DigitsTo(value, base, uppercase, room, buf + [DigitChar(Mod(v, base), uppercase)], Div(v, base))
  {
    DigitsStep(v, base, uppercase, room - |buf|);
    OneMore(Digits(value, base, uppercase, room), buf, Digits(v, base, uppercase, room - |buf|), DigitChar(Mod(v, base), uppercase),
            MoreDigits(Div(v, base), base, uppercase, room - |buf| - 1));
  }

  lemma OneMore(all: string, buf: string, rest: string, d: char, more: string)
    requires all == buf + rest && rest == [d] + more
    ensures all == buf + [d] + more
  {
  }

  function MoreDigits(v: nat, base: nat, uppercase: bool, room: nat): string
    requires IsBase(base)
  {
    if v == 0 then "" else Digits(v, base, uppercase, room)
  }

  lemma DigitsStep(v: nat, base: nat, uppercase: bool, room: nat)
    requires IsBase(base) && room > 0
    ensures Digits(v, base, uppercase, room) == [DigitChar(Mod(v, base), uppercase)] + MoreDigits(Div(v, base), base, uppercase, room - 1)
  {
  }

  // ----- atoi -----

  function DigitOf(c: char): int {
    c as int - '0' as int
  }

  /** The number the leading digits of `s` make after those already read. */
  function Prefix(s: string, acc: int): int {
    if s != "" && IsDigit(s[0]) then Prefix(s[1..], acc * 10 + DigitOf(s[0])) else acc
  }

  function AtoiOf(s: string): int {
    if At(s, 0) == '-' then -Prefix(s[1..], 0)
    else if At(s, 0) == '+' then Prefix(s[1..], 0)
    else Prefix(s, 0)
  }

  lemma {:induction false} PrefixGrows(s: string, acc: int)
    requires acc >= 0
    ensures Prefix(s, acc) >= acc
  {
    if s != "" && IsDigit(s[0]) { PrefixGrows(s[1..], acc * 10 + DigitOf(s[0])); }
  }

  /** atoi, and whether final_num went past the largest int on the way, which the language leaves
      undefined. */
  method Atoi(s: string) returns (r: int, overflow: bool)
    ensures r == AtoiOf(s)
    ensures overflow <==> AtoiOf(s) < -INT_MAX || AtoiOf(s) > INT_MAX
  {
    var sign, str: nat, final := 1, 0, 0;
    overflow := false;
    if At(s, 0) == '-' {
      sign, str := -1, 1;
    } else if At(s, 0) == '+' {
      str := 1;
    }
    ghost var all := Prefix(s[str..], 0);
    while IsDigit(At(s, str))
      invariant str <= |s| && final >= 0 && all == Prefix(s[str..], final) && (overflow <==> final > INT_MAX)
      decreases |s| - str
    {
      assert s[str..][1..] == s[str + 1..];
      var before := final;
      final := final * 10 + DigitOf(s[str]);
      assert final >= before;
      overflow := overflow || final > INT_MAX;
      str := str + 1;
    }
    r := final * sign;
    assert s[0..] == s;
  }

  // ----- Reading back what was printed -----

  predicate AllDigits(buf: string) {
    forall i | 0 <= i < |buf| :: IsDigit(buf[i])
  }

  /** The value of a digit, in any base up to 16. */
  function DigitValue(c: char): int {
    if 'a' <= c <= 'f' then c as int - 'a' as int + 10
    else if 'A' <= c <= 'F' then c as int - 'A' as int + 10
    else DigitOf(c)
  }

  /** The number in a digit buffer, least significant digit first. */
  function ValueOf(buf: string, base: nat): int {
    if buf == "" then 0 else DigitValue(buf[0]) + base * ValueOf(buf[1..], base)
  }

  predicate DigitsOf(buf: string, base: nat) {
    forall i | 0 <= i < |buf| :: 0 <= DigitValue(buf[i]) < base
  }

  function Power(base: nat, n: nat): nat {
    if n == 0 then 1 else base * Power(base, n - 1)
  }

  function DigitCount(n: nat, base: nat): (k: nat)
    requires IsBase(base)
    ensures k > 0
    decreases n
  {
    if Div(n, base) == 0 then 1 else 1 + DigitCount(Div(n, base), base)
  }

  /** The digits make the number, in every base, provided that there is room for all of them. */
  lemma {:induction false} DigitsValue(value: nat, base: nat, uppercase: bool, room: nat)
    requires IsBase(base) && value < Power(base, room) && room > 0
    ensures DigitsOf(Digits(value, base, uppercase, room), base) && ValueOf(Digits(value, base, uppercase, room), base) == value
    decreases room
  {
    var q, d := Div(value, base), DigitChar(Mod(value, base), uppercase);
    DigitsStep(value, base, uppercase, room);
    if q != 0 {
      DigitsValue(q, base, uppercase, room - 1);
    } else {
    }
  }

  /** As many as the number has, and the leading one is not 0 unless the number is. */
  lemma {:induction false} DigitsLength(value: nat, base: nat, uppercase: bool, room: nat)
    requires IsBase(base) && value < Power(base, room) && room > 0
    ensures var s := Digits(value, base, uppercase, room);
            |s| == DigitCount(value, base) <= room && (value > 0 ==> DigitValue(s[|s| - 1]) > 0)
    decreases room
  {
    DigitsStep(value, base, uppercase, room);
    if Div(value, base) != 0 {
      DigitsLength(Div(value, base), base, uppercase, room - 1);
    }
  }

  lemma {:induction false} ZerosKeepValue(buf: string, n: nat, base: nat)
    requires base > 0 && DigitsOf(buf, base)
    ensures DigitsOf(buf + Repeat('0', n), base) && ValueOf(buf + Repeat('0', n), base) == ValueOf(buf, base)
    decreases |buf|
  {
    if buf != "" {
      ZerosKeepValue(buf[1..], n, base);
      assert (buf + Repeat('0', n))[1..] == buf[1..] + Repeat('0', n);
    } else {
      ZerosAreZero(n, base);
      assert buf + Repeat('0', n) == Repeat('0', n);
    }
  }

  lemma {:induction false} ZerosAreZero(n: nat, base: nat)
    requires base > 0
    ensures DigitsOf(Repeat('0', n), base) && ValueOf(Repeat('0', n), base) == 0
  {
    if n > 0 {
      ZerosAreZero(n - 1, base);
      assert Repeat('0', n)[1..] == Repeat('0', n - 1);
    }
  }

  /** The number after reading a digit buffer backwards. */
  function ReadBack(buf: string, acc: int): int {
    if buf == "" then acc else ReadBack(buf[1..], acc) * 10 + DigitOf(buf[0])
  }

  lemma {:induction false} ReadBackValue(buf: string)
    requires AllDigits(buf)
    ensures ReadBack(buf, 0) == ValueOf(buf, 10)
  {
    if buf != "" { ReadBackValue(buf[1..]); }
  }

  lemma {:induction false} PrefixOfReverse(buf: string, tail: string, acc: int)
    requires AllDigits(buf)
    ensures Prefix(Reverse(buf) + tail, acc) == Prefix(tail, ReadBack(buf, acc))
    decreases |buf|
  {
    if buf == "" {
      assert Reverse(buf) + tail == tail;
    } else {
      var tail' := [buf[0]] + tail;
      assert Reverse(buf) + tail == Reverse(buf[1..]) + tail';
      PrefixOfReverse(buf[1..], tail', acc);
      assert tail'[1..] == tail;
    }
  }

  lemma {:induction false} ReverseSnoc(s: string, c: char)
    ensures Reverse(s + [c]) == [c] + Reverse(s)
  {
    if s == "" {
      assert s + [c] == [c];
      assert [c][1..] == "";
    } else {
      assert (s + [c])[1..] == s[1..] + [c];
      ReverseSnoc(s[1..], c);
    }
  }

  lemma {:induction false} ReverseFirst(s: string)
    requires s != ""
    ensures Reverse(s)[0] == s[|s| - 1]
  {
    assert s == s[..|s| - 1] + [s[|s| - 1]];
    ReverseSnoc(s[..|s| - 1], s[|s| - 1]);
  }

  predicate Blank(s: string) {
    s == "" || s[0] == ' '
  }

  /** atoi of a sign, digits and whatever blanks follow. */
  lemma AtoiOfSigned(sign: string, buf: string, post: string)
    requires AllDigits(buf) && Blank(post) && (sign == "" || sign == "-" || sign == "+" || sign == " ")
    ensures AtoiOf(sign + Reverse(buf) + post)
         == if sign == "-" then -ValueOf(buf, 10) else if sign == " " then 0 else ValueOf(buf, 10)
  {
    var rest := Reverse(buf) + post;
    var s := sign + Reverse(buf) + post;
    PrefixOfReverse(buf, post, 0);
    ReadBackValue(buf);
    if sign == "" {
      assert s == rest;
      if buf != "" { ReverseFirst(buf); }
    } else {
      assert s[1..] == rest && s[0] == sign[0];
    }
  }

  lemma TenDigits(value: nat)
    requires value <= 0x8000_0000
    ensures DigitCount(value, 10) <= 10 && value < Power(10, NTOA_BUFFER_SIZE)
  {
    assert Power(10, 10) == 10000000000;
    DigitsLength(value, 10, false, 10);
    PowerGrows(10, 10, NTOA_BUFFER_SIZE - 10);
  }

  lemma {:induction false} PowerGrows(base: nat, n: nat, more: nat)
    requires IsBase(base)
    ensures Power(base, n + more) >= Power(base, n)
    decreases more
  {
    if more > 0 { PowerGrows(base, n, more - 1); }
  }

  /** The digits printed for a number. */
  function ShownDigits(value: nat, base: nat, f: Flags): nat
    requires IsBase(base)
  {
    if f.precision && value == 0 then 0 else DigitCount(value, base)
  }

  function PaddedLength(digits: nat, prec: nat, width: nat, f: Flags): nat {
    if f.left then digits
    else
      var l := Max(digits, Min(prec, NTOA_BUFFER_SIZE));
      if f.zeropad then Max(l, Min(width, NTOA_BUFFER_SIZE)) else l
  }

  lemma FilledDigits(buf: string, upTo: nat, base: nat)
    requires base > 0 && DigitsOf(buf, base) && |buf| <= NTOA_BUFFER_SIZE
    ensures DigitsOf(FillZeros(buf, upTo), base) && ValueOf(FillZeros(buf, upTo), base) == ValueOf(buf, base)
    ensures |FillZeros(buf, upTo)| == Max(|buf|, Min(upTo, NTOA_BUFFER_SIZE))
    ensures ZeroFilled(buf, FillZeros(buf, upTo))
  {
    var n := Min(upTo, NTOA_BUFFER_SIZE) - |buf|;
    if n >= 0 { ZerosKeepValue(buf, n, base); } else { assert Repeat('0', n) == "" && buf + "" == buf; }
  }

  /** `p` is `digits` with zeros after them. */
  predicate ZeroFilled(digits: string, p: string) {
    digits <= p && forall i | |digits| <= i < |p| :: p[i] == '0'
  }

  /** Before the base prefix and the sign: the digits of the number, then zeros, most significant
      last. */
  lemma PaddedDigits(value: nat, base: nat, prec: nat, width: nat, f: Flags)
    requires IsBase(base) && value < Power(base, NTOA_BUFFER_SIZE)
    ensures var digits, p := NumberBuffer(value, base, f), Padded(NumberBuffer(value, base, f), prec, width, f);
            && DigitsOf(p, base) && ValueOf(p, base) == value && ZeroFilled(digits, p)
            && |digits| == ShownDigits(value, base, f) && |p| == PaddedLength(|digits|, prec, width, f)
            && (value > 0 ==> digits != "" && DigitValue(digits[|digits| - 1]) > 0)
  {
    DigitsValue(value, base, f.uppercase, NTOA_BUFFER_SIZE);
    DigitsLength(value, base, f.uppercase, NTOA_BUFFER_SIZE);
    PaddedOf(NumberBuffer(value, base, f), base, prec, width, f);
  }

  lemma PaddedOf(buf: string, base: nat, prec: nat, width: nat, f: Flags)
    requires base > 0 && DigitsOf(buf, base) && |buf| <= NTOA_BUFFER_SIZE
    ensures var p := Padded(buf, prec, width, f);
            && DigitsOf(p, base) && ValueOf(p, base) == ValueOf(buf, base) && ZeroFilled(buf, p)
            && |p| == PaddedLength(|buf|, prec, width, f)
  {
    if !f.left {
      FilledDigits(buf, prec, base);
      FilledDigits(FillZeros(buf, prec), width, base);
    }
  }

  lemma PaddedDecimal(m: nat, prec: nat, w: nat, f: Flags)
    requires m <= 0x8000_0000
    ensures var p := Padded(NumberBuffer(m, 10, f), prec, w, f);
            AllDigits(p) && ValueOf(p, 10) == m && |p| == PaddedLength(ShownDigits(m, 10, f), prec, w, f)
  {
    TenDigits(m);
    PaddedDigits(m, 10, prec, w, f);
  }

  /** What atoi makes of a printed number, in terms of the conversion alone: 0 if a blank comes
      first, and the absolute value if the digits left no room for a minus sign. */
  function ReadBackAs(value: int, prec: nat, width: nat, f: Flags): int {
    var m := if value < 0 then -value else value;
    var w := SignedWidth(width, value < 0, f);
    FieldRead(m, value < 0, PaddedLength(ShownDigits(m, 10, f), prec, w, f), w, f)
  }

  /** The sign that `len` digits leave room for. */
  function FittingSign(negative: bool, len: nat, f: Flags): string {
    if len < NTOA_BUFFER_SIZE then Sign(negative, f) else ""
  }

  /** atoi() of `len` digits of value `m` in a field. */
  function FieldRead(m: int, negative: bool, len: nat, w: nat, f: Flags): int {
    var sign := FittingSign(negative, len, f);
    if !f.left && !f.zeropad && w > len + |sign| then 0
    else if sign == " " then 0
    else if sign == "-" then -m else m
  }

  lemma AtoiOfNumber(value: int, prec: nat, width: nat, f: Flags)
    requires INT_MIN <= value <= INT_MAX && !f.hash
    ensures AtoiOf(NumberText(if value < 0 then -value else value, value < 0, 10, prec, width, f)) == ReadBackAs(value, prec, width, f)
  {
    var m := if value < 0 then -value else value;
    var w := SignedWidth(width, value < 0, f);
    PlainNumber(m, value < 0, 10, prec, width, f);
    PaddedDecimal(m, prec, w, f);
    AtoiOfDigits(Padded(NumberBuffer(m, 10, f), prec, w, f), m, value < 0, w, f);
  }

  lemma AtoiOfDigits(p: string, m: nat, negative: bool, w: nat, f: Flags)
    requires AllDigits(p) && ValueOf(p, 10) == m
    ensures AtoiOf(Field(p + FittingSign(negative, |p|, f), w, f)) == FieldRead(m, negative, |p|, w, f)
  {
    AtoiOfField(FittingSign(negative, |p|, f), p, w, f);
  }

  /** Without '#' the text is the padded digits and the sign, if it fits. */
  lemma PlainNumber(m: nat, negative: bool, base: nat, prec: nat, width: nat, f: Flags)
    requires IsBase(base) && !f.hash
    ensures var w := SignedWidth(width, negative, f);
            var p := Padded(NumberBuffer(m, base, f), prec, w, f);
            NumberText(m, negative, base, prec, width, f) == Field(p + FittingSign(negative, |p|, f), w, f)
  {
    assert f.(hash := false) == f;
    var w := SignedWidth(width, negative, f);
    var p := Padded(NumberBuffer(m, base, f), prec, w, f);
    assert Signed(p, negative, f) == p + FittingSign(negative, |p|, f);
  }

  lemma AtoiOfField(sign: string, p: string, w: nat, f: Flags)
    requires AllDigits(p) && (sign == "" || sign == "-" || sign == "+" || sign == " ")
    ensures AtoiOf(Field(p + sign, w, f))
         == if (!f.left && !f.zeropad && w > |p| + |sign|) || sign == " " then 0 else if sign == "-" then -ValueOf(p, 10) else ValueOf(p, 10)
  {
    ReverseSigned(p, sign);
    FieldShape(p + sign, w, f);
    if f.left || f.zeropad || w <= |p + sign| {
      AtoiOfSigned(sign, p, if f.left then Repeat(' ', w - |p + sign|) else "");
    }
  }

  /** A field begins with a blank, or with what it was made for. */
  lemma FieldShape(buf: string, w: nat, f: Flags)
    ensures if f.left || f.zeropad || w <= |buf|
            then Field(buf, w, f) == Reverse(buf) + (if f.left then Repeat(' ', w - |buf|) else "")
            else AtoiOf(Field(buf, w, f)) == 0
  {
    if f.left || f.zeropad || w <= |buf| {
      assert (if !f.left && !f.zeropad then Repeat(' ', w - |buf|) else "") == "";
    } else {
      assert Field(buf, w, f)[0] == ' ';
    }
  }

  lemma ReverseSigned(p: string, sign: string)
    requires |sign| <= 1
    ensures Reverse(p + sign) == sign + Reverse(p)
  {
    if sign == "" { assert p + sign == p; } else { assert sign == [sign[0]]; ReverseSnoc(p, sign[0]); }
  }

  /** Printing with %d, with any flags, width, precision and length, and reading it back gives the
      number exactly when no blank comes first and a minus sign fits. The number is what the
      conversion takes the argument for, which must be an int for atoi to give it back. */
  lemma RoundTrip(arg: int, d: Directive, value: int)
    requires value == AsSigned(arg, d.flags.length) && INT_MIN <= value <= INT_MAX
    ensures AtoiOf(IntegerText('d', arg, d)) == value <==> ReadsBack(value, d.prec, d.width, IntegerFlags('d', d.flags))
  {
    DecimalText(arg, d, value);
    AtoiOfNumber(value, d.prec, d.width, IntegerFlags('d', d.flags));
  }

  /** No blank comes before the digits, and the digit buffer has room for a minus sign. */
  predicate ReadsBack(value: int, prec: nat, width: nat, f: Flags) {
    var m := if value < 0 then -value else value;
    var w := SignedWidth(width, value < 0, f);
    var len := PaddedLength(ShownDigits(m, 10, f), prec, w, f);
    var sign := FittingSign(value < 0, len, f);
    value == 0 || ((f.left || f.zeropad || w <= len + |sign|) && sign != " " && (value < 0 ==> len < NTOA_BUFFER_SIZE))
  }

  lemma DecimalText(arg: int, d: Directive, value: int)
    requires value == AsSigned(arg, d.flags.length)
    ensures IntegerText('d', arg, d)
         == NumberText(if value < 0 then -value else value, value < 0, 10, d.prec, d.width, IntegerFlags('d', d.flags))
  {
    assert Magnitude('d', arg, d.flags.length) == (if value < 0 then -value else value, value < 0);
  }

  /** In particular for a plain %d, and for one padded with zeros to at most 32 characters. */
  lemma PlainRoundTrip(value: int, width: nat, args: seq<Arg>)
    requires INT_MIN <= value <= INT_MAX
    ensures AtoiOf(IntegerText('d', value, Directive(NO_FLAGS, 0, 0, 0, args))) == value
    ensures width <= 32 ==> AtoiOf(IntegerText('d', value, Directive(NO_FLAGS.(zeropad := true), width, 0, 0, args))) == value
  {
    UnpaddedRoundTrip(value, args);
    if width <= 32 { ZeroPaddedRoundTrip(value, width, args); }
  }

  lemma UnpaddedRoundTrip(value: int, args: seq<Arg>)
    requires INT_MIN <= value <= INT_MAX
    ensures AtoiOf(IntegerText('d', value, Directive(NO_FLAGS, 0, 0, 0, args))) == value
  {
    TenDigits(if value < 0 then -value else value);
    RoundTrip(value, Directive(NO_FLAGS, 0, 0, 0, args), value);
  }

  lemma ZeroPaddedRoundTrip(value: int, width: nat, args: seq<Arg>)
    requires INT_MIN <= value <= INT_MAX && width <= 32
    ensures AtoiOf(IntegerText('d', value, Directive(NO_FLAGS.(zeropad := true), width, 0, 0, args))) == value
  {
    TenDigits(if value < 0 then -value else value);
    RoundTrip(value, Directive(NO_FLAGS.(zeropad := true), width, 0, 0, args), value);
  }

  /** A number padded past the digit buffer loses its sign: %033d of -1 reads back as 1. */
  lemma SignLost(args: seq<Arg>)
    ensures AtoiOf(IntegerText('d', -1, Directive(NO_FLAGS.(zeropad := true), 33, 0, 0, args))) == 1
  {
    AtoiOfNumber(-1, 0, 33, NO_FLAGS.(zeropad := true));
  }

  lemma PlainLength(value: int)
    requires INT_MIN <= value <= INT_MAX
    ensures var m := if value < 0 then -value else value;
            |NumberText(m, value < 0, 10, 0, 0, NO_FLAGS)| <= 11
  {
    var m := if value < 0 then -value else value;
    TenDigits(m);
    PaddedDecimal(m, 0, 0, NO_FLAGS);
  }

  /** The format "%d". */
  predicate IsPercentD(format: string) {
    |format| == 2 && format[0] == '%' && format[1] == 'd'
  }

  lemma OutputOfPercentD(format: string, value: int)
    requires IsPercentD(format)
    ensures Output(format, 0, [Int(value)]) == IntegerText('d', value, Directive(NO_FLAGS, 0, 0, 1, [Int(value)]))
  {
    var args := [Int(value)];
    var d := Directive(NO_FLAGS, 0, 0, 1, args);
    assert Output(format, 2, After('d', d)) == "";
    assert Output(format, 0, args) == Converted('d', d) + "";
  }

  lemma ShortAndReadable(value: int, d: Directive)
    requires INT_MIN <= value <= INT_MAX && d.flags == NO_FLAGS && d.width == 0 && d.prec == 0
    ensures |IntegerText('d', value, d)| <= 11 && AtoiOf(IntegerText('d', value, d)) == value
  {
    DecimalText(value, d, value);
    assert IntegerFlags('d', NO_FLAGS) == NO_FLAGS;
    PlainLength(value);
    PlainReads(value);
  }

  lemma PlainReads(value: int)
    requires INT_MIN <= value <= INT_MAX
    ensures AtoiOf(NumberText(if value < 0 then -value else value, value < 0, 10, 0, 0, NO_FLAGS)) == value
  {
    TenDigits(if value < 0 then -value else value);
    AtoiOfNumber(value, 0, 0, NO_FLAGS);
  }

  /** snprintf of "%d" into twelve characters and atoi of the result: the number itself, and an
      overflow on the way for the smallest int alone. */
  method PrintAndRead(format: string, value: int) returns (r: int, overflow: bool)
    requires IsPercentD(format) && INT_MIN <= value <= INT_MAX
    ensures r == value && (overflow <==> value == INT_MIN)
  {
    var args := [Int(value)];
    var buffer := new char[12];
    var n := Snprintf(buffer, buffer.Length, format, args);
    OutputOfPercentD(format, value);
    ghost var text := Output(format, 0, args);
    ShortAndReadable(value, Directive(NO_FLAGS, 0, 0, 1, args));
    assert buffer[..n] == text[..n] && text[..n] == text;
    r, overflow := Atoi(buffer[..n]);
  }

  // ----- The '#' flag -----

  /** Dropping digits keeps the value exactly if they are zeros. */
  predicate ZeroFrom(buf: string, n: nat) {
    forall i | n <= i < |buf| :: DigitValue(buf[i]) == 0
  }

  lemma {:induction false} DroppedDigits(buf: string, n: nat, base: nat)
    requires base > 0 && DigitsOf(buf, base) && n <= |buf|
    ensures ValueOf(buf[..n], base) <= ValueOf(buf, base) && ValueOf(buf, base) >= 0
    ensures ValueOf(buf[..n], base) == ValueOf(buf, base) <==> ZeroFrom(buf, n)
    decreases |buf|
  {
    if buf == "" {
      assert buf[..n] == buf;
    } else if n == 0 {
      DroppedDigits(buf[1..], 0, base);
      assert buf[1..][..0] == "" && buf[..0] == "";
      Scaled(base, 0, ValueOf(buf[1..], base));
    } else {
      DroppedDigits(buf[1..], n - 1, base);
      assert buf[..n][1..] == buf[1..][..n - 1];
      Scaled(base, ValueOf(buf[1..][..n - 1], base), ValueOf(buf[1..], base));
    }
  }

  lemma Scaled(base: nat, x: int, y: int)
    requires base > 0 && x <= y
    ensures base * x <= base * y && (base * x == base * y <==> x == y)
  {
    assert base * y - base * x == base * (y - x);
  }

  /** The '#' flag keeps the number exactly if what it cuts away is padding: if no digit is cut, or
      the number has no more digits than are left. */
  lemma HashKeepsValue(value: nat, base: nat, prec: nat, width: nat, f: Flags, p: string, left: nat)
    requires IsBase(base) && 0 < value < Power(base, NTOA_BUFFER_SIZE)
    requires p == Padded(NumberBuffer(value, base, f), prec, width, f) && left == |p| - CutDigits(|p|, base, prec, width, f)
    ensures ValueOf(p[..left], base) == value <==> DigitCount(value, base) <= left
  {
    var digits := DigitsOfNumber(value, base, prec, width, f, p);
    CutValue(digits, p, left, base);
  }

  lemma DigitsOfNumber(value: nat, base: nat, prec: nat, width: nat, f: Flags, p: string) returns (digits: string)
    requires IsBase(base) && 0 < value < Power(base, NTOA_BUFFER_SIZE) && p == Padded(NumberBuffer(value, base, f), prec, width, f)
    ensures DigitsOf(p, base) && ValueOf(p, base) == value && ZeroFilled(digits, p)
    ensures |digits| == DigitCount(value, base) && digits != "" && DigitValue(digits[|digits| - 1]) > 0
  {
    PaddedDigits(value, base, prec, width, f);
    digits := NumberBuffer(value, base, f);
  }

  lemma CutValue(digits: string, p: string, left: nat, base: nat)
    requires base > 0 && DigitsOf(p, base) && ZeroFilled(digits, p) && left <= |p|
    requires digits != "" && DigitValue(digits[|digits| - 1]) > 0
    ensures ValueOf(p[..left], base) == ValueOf(p, base) <==> |digits| <= left
  {
    DroppedDigits(p, left, base);
    assert p[|digits| - 1] == digits[|digits| - 1];
  }

  /** A number that fills its field loses its leading digits: %#4x of 0x1234 keeps the digits 34. */
  lemma HashLosesDigits()
    ensures var f := NO_FLAGS.(hash := true);
            var p := Padded(NumberBuffer(0x1234, 16, f), 0, 4, f);
            |p| == 4 && CutDigits(|p|, 16, 0, 4, f) == 2 && ValueOf(p[..2], 16) != 0x1234
  {
    var f := NO_FLAGS.(hash := true);
    PowerGrows(16, 4, NTOA_BUFFER_SIZE - 4);
    PaddedDigits(0x1234, 16, 0, 4, f);
    HashKeepsValue(0x1234, 16, 0, 4, f, Padded(NumberBuffer(0x1234, 16, f), 0, 4, f), 2);
  }

}
