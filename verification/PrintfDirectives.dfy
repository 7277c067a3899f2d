/** How a directive is written in a format, and which argument it takes: the reading half of
    kernel/src/printf.c:577-690, against the directives themselves. */
module PrintfDirectives {
  import opened Printf
  import opened PrintfMeaning

  /** The parts of a directive between '%' and its letter, as text. */
  datatype Spec = Spec(flags: string, width: string, precision: string, length: string, letter: char)

  function Written(s: Spec): string {
    s.flags + s.width + s.precision + s.length + [s.letter]
  }

  predicate Digits(s: string) {
    forall i | 0 <= i < |s| :: '0' <= s[i] <= '9'
  }

  predicate IsLengthName(s: string) {
    s == "" || s == "hh" || s == "h" || s == "l" || s == "ll" || s == "j" || s == "z" || s == "t"
  }

  /** Flags, a width (digits or a star), a point with a precision (digits, a star or nothing), a
      length modifier and a letter. */
  predicate WellFormed(s: Spec) {
    && (forall i | 0 <= i < |s.flags| ::
          s.flags[i] == '0' || s.flags[i] == '-' || s.flags[i] == '+' || s.flags[i] == ' ' || s.flags[i] == '#')
    && (s.width == "*" || (Digits(s.width) && (s.width != "" ==> s.width[0] != '0')))
    && (s.precision == "" || s.precision == ".*" || (s.precision[0] == '.' && Digits(s.precision[1..])))
    && IsLengthName(s.length)
    && ('A' <= s.letter <= 'z' || s.letter == '%')
    && s.letter != 'h' && s.letter != 'l' && s.letter != 'j' && s.letter != 'z' && s.letter != 't'
  }

  /** The arguments left after the stars before the letter. */
  function AfterWidth(s: Spec, args: seq<Arg>): seq<Arg> {
    if s.width == "*" && args != [] then args[1..] else args
  }

  function AfterStars(s: Spec, args: seq<Arg>): seq<Arg> {
    if s.precision == ".*" && AfterWidth(s, args) != [] then AfterWidth(s, args)[1..] else AfterWidth(s, args)
  }

  function Star(args: seq<Arg>): int {
    if args != [] && args[0].Int? then args[0].value else 0
  }

  function Named(length: string): Length {
    if length == "" then Plain else if length == "hh" then Char else if length == "h" then Short else Long
  }

  /** What the directive asks for: each flag exactly if its character is there; a negative starred
      width is a '-' with its absolute value; a negative starred precision is 0. */
  function Asked(s: Spec, pos: nat, args: seq<Arg>): Directive {
    var w := if s.width == "*" then Star(args) else Numeral(s.width, 10);
    var p := if s.precision == ".*" then Star(AfterWidth(s, args)) else if s.precision == "" then 0 else Numeral(s.precision[1..], 10);
    Directive(Flags('0' in s.flags, '-' in s.flags || w < 0, '+' in s.flags, ' ' in s.flags, '#' in s.flags, false, s.precision != "",
                    Named(s.length)),
              if w < 0 then -w else w, if p < 0 then 0 else p, pos, AfterStars(s, args))
  }

  /** `text` stands in the format at `pos`. */
  predicate StandsAt(format: string, pos: nat, text: string) {
    pos + |text| <= |format| && format[pos..pos + |text|] == text
  }

  lemma StandsParts(format: string, pos: nat, a: string, b: string)
    requires StandsAt(format, pos, a + b)
    ensures StandsAt(format, pos, a) && StandsAt(format, pos + |a|, b)
  {
    assert format[pos..pos + |a + b|][..|a|] == format[pos..pos + |a|];
    assert format[pos..pos + |a + b|][|a|..] == format[pos + |a|..pos + |a + b|];
    assert (a + b)[..|a|] == a && (a + b)[|a|..] == b;
  }

  // ----- Flags -----

  function Flagged(f: Flags, s: string): Flags {
    f.(zeropad := f.zeropad || '0' in s, left := f.left || '-' in s, plus := f.plus || '+' in s,
       space := f.space || ' ' in s, hash := f.hash || '#' in s)
  }

  lemma FlaggedNext(f: Flags, s: string)
    requires s != "" && IsFlag(s[0])
    ensures Flagged(FlagOf(f, s[0]), s[1..]) == Flagged(f, s)
  {
    InTail(s, '0');
    InTail(s, '-');
    InTail(s, '+');
    InTail(s, ' ');
    InTail(s, '#');
  }

  lemma InTail(s: string, c: char)
    requires s != ""
    ensures c in s <==> c == s[0] || c in s[1..]
  {
    assert s == [s[0]] + s[1..];
  }

  lemma {:induction false} FlagsRead(format: string, pos: nat, f: Flags, s: string)
    requires StandsAt(format, pos, s) && (forall i | 0 <= i < |s| :: IsFlag(s[i]))
    requires pos + |s| < |format| && !IsFlag(format[pos + |s|])
    ensures SkipFlags(format, pos, f) == (Flagged(f, s), pos + |s|)
    decreases |s|
  {
    if s != "" {
      assert s == [s[0]] + s[1..];
      StandsParts(format, pos, [s[0]], s[1..]);
      assert format[pos..pos + 1][0] == s[0];
      FlagsRead(format, pos + 1, FlagOf(f, s[0]), s[1..]);
      FlaggedNext(f, s);
    } else {
      NoFlags(f);
    }
  }

  lemma NoFlags(f: Flags)
    ensures Flagged(f, "") == f
  {
  }

  // ----- Numbers -----

  lemma NumeralSnoc(s: string, n: nat)
    requires n < |s| && Digits(s)
    ensures Numeral(s[..n + 1], 10) == Numeral(s[..n], 10) * 10 + (s[n] as int - '0' as int)
  {
    assert s[..n + 1][..n] == s[..n];
  }

  lemma {:induction false} NumeralPositive(s: string)
    requires Digits(s)
    ensures Numeral(s, 10) >= 0
  {
    if s != "" { NumeralPositive(s[..|s| - 1]); }
  }

  lemma {:induction false} NumberRead(format: string, pos: nat, s: string, n: nat)
    requires StandsAt(format, pos, s) && Digits(s) && n <= |s| && (pos + |s| < |format| ==> !IsDigit(format[pos + |s|]))
    ensures Numeral(s[..n], 10) >= 0
    ensures NumberAt(format, pos + n, Numeral(s[..n], 10)) == (Numeral(s, 10), pos + |s|)
    decreases |s| - n
  {
    NumeralPositive(s[..n]);
    if n == |s| {
      assert s[..n] == s;
    } else {
      assert format[pos..pos + |s|][n] == s[n];
      NumeralSnoc(s, n);
      NumberRead(format, pos, s, n + 1);
    }
  }

  // ----- The whole directive -----

  /** What follows a part of a directive: none of the characters that would continue it. */
  predicate Stops(c: char) {
    c != '*' && !IsDigit(c) && !IsFlag(c)
  }

  lemma WidthRead(format: string, s: Spec, d: Directive)
    requires WellFormed(s) && StandsAt(format, d.pos, s.width) && d.width == 0 && d.pos + |s.width| < |format|
    requires Stops(format[d.pos + |s.width|])
    ensures var w := if s.width == "*" then Star(d.args) else Numeral(s.width, 10);
            ReadWidth(format, d) == d.(flags := d.flags.(left := d.flags.left || w < 0), width := if w < 0 then -w else w,
                                       pos := d.pos + |s.width|, args := AfterWidth(s, d.args))
  {
    if s.width == "*" {
      assert format[d.pos..d.pos + 1][0] == '*';
    } else if s.width == "" {
    } else {
      assert format[d.pos..d.pos + |s.width|][0] == s.width[0];
      assert s.width[..0] == "";
      NumberRead(format, d.pos, s.width, 0);
      NumeralPositive(s.width);
    }
  }

  lemma PrecisionRead(format: string, s: Spec, d: Directive, args: seq<Arg>)
    requires WellFormed(s) && StandsAt(format, d.pos, s.precision) && d.prec == 0 && d.pos + |s.precision| < |format|
    requires Stops(format[d.pos + |s.precision|]) && format[d.pos + |s.precision|] != '.'
    requires !d.flags.precision && d.args == AfterWidth(s, args)
    ensures var p := if s.precision == ".*" then Star(d.args) else if s.precision == "" then 0 else Numeral(s.precision[1..], 10);
            ReadPrecision(format, d) == d.(flags := d.flags.(precision := s.precision != ""), prec := if p < 0 then 0 else p,
                                           pos := d.pos + |s.precision|, args := AfterStars(s, args))
  {
    if s.precision != "" {
      assert s.precision == "." + s.precision[1..];
      StandsParts(format, d.pos, ".", s.precision[1..]);
      assert format[d.pos..d.pos + 1][0] == '.';
      var n := s.precision[1..];
      if n == "*" {
        assert format[d.pos + 1..d.pos + 2][0] == '*';
        assert s.precision == ".*";
      } else if n != "" {
        assert format[d.pos + 1..d.pos + 1 + |n|][0] == n[0];
        assert n[..0] == "";
        NumberRead(format, d.pos + 1, n, 0);
        NumeralPositive(n);
      }
    }
  }

  lemma LengthRead(format: string, s: Spec, d: Directive)
    requires WellFormed(s) && StandsAt(format, d.pos, s.length + [s.letter]) && d.flags.length.Plain?
    ensures ReadLength(format, d) == d.(flags := d.flags.(length := Named(s.length)), pos := d.pos + |s.length|)
    ensures At(format, d.pos + |s.length|) == s.letter
  {
    var t := s.length + [s.letter];
    assert forall i | 0 <= i < |t| :: format[d.pos..d.pos + |t|][i] == t[i];
    assert forall i | 0 <= i < |t| :: At(format, d.pos + i) == t[i];
    assert t[|s.length|] == s.letter && At(format, d.pos + 0) == t[0];
    if s.length != "" { assert At(format, d.pos + 1) == t[1]; }
  }

  lemma PartsStand(format: string, pos: nat, s: Spec)
    requires StandsAt(format, pos, Written(s))
    ensures StandsAt(format, pos, s.flags) && StandsAt(format, pos + |s.flags|, s.width)
    ensures StandsAt(format, pos + |s.flags| + |s.width|, s.precision)
    ensures StandsAt(format, pos + |s.flags| + |s.width| + |s.precision|, s.length + [s.letter])
  {
    var tail := s.length + [s.letter];
    WrittenIs(s, tail);
    FourStand(format, pos, s.flags, pos + |s.flags|, s.width, pos + |s.flags| + |s.width|, s.precision, tail);
  }

  lemma FourStand(format: string, p: nat, a: string, q: nat, b: string, r: nat, c: string, d: string)
    requires StandsAt(format, p, a + (b + (c + d))) && q == p + |a| && r == q + |b|
    ensures StandsAt(format, p, a) && StandsAt(format, q, b) && StandsAt(format, r, c) && StandsAt(format, r + |c|, d)
  {
    StandsParts(format, p, a, b + (c + d));
    StandsParts(format, q, b, c + d);
    StandsParts(format, r, c, d);
  }

  lemma WrittenIs(s: Spec, tail: string)
    requires tail == s.length + [s.letter]
    ensures Written(s) == s.flags + (s.width + (s.precision + tail))
  {
    Regroup(s.flags + s.width + s.precision, s.length, [s.letter]);
    Regroup(s.flags + s.width, s.precision, tail);
    Regroup(s.flags, s.width, s.precision + tail);
  }

  /** The character at which a part begins, if it is not empty. */
  lemma FirstOf(format: string, pos: nat, t: string)
    requires StandsAt(format, pos, t) && t != ""
    ensures pos < |format| && format[pos] == t[0]
  {
    assert format[pos..pos + |t|][0] == t[0];
  }

  lemma TailStops(format: string, pos: nat, s: Spec)
    requires WellFormed(s) && StandsAt(format, pos, s.length + [s.letter])
    ensures pos < |format| && Stops(format[pos]) && format[pos] != '.'
  {
    FirstOf(format, pos, s.length + [s.letter]);
  }

  /** What stops a width: a point, a length modifier or the letter. */
  lemma PrecisionStops(format: string, pos: nat, s: Spec)
    requires WellFormed(s) && StandsAt(format, pos, s.precision) && StandsAt(format, pos + |s.precision|, s.length + [s.letter])
    ensures pos < |format| && Stops(format[pos])
  {
    TailStops(format, pos + |s.precision|, s);
    if s.precision != "" { FirstOf(format, pos, s.precision); }
  }

  lemma WidthStops(format: string, pos: nat, s: Spec)
    requires WellFormed(s) && StandsAt(format, pos, s.width) && pos + |s.width| < |format| && Stops(format[pos + |s.width|])
    ensures pos < |format| && !IsFlag(format[pos])
  {
    if s.width != "" { FirstOf(format, pos, s.width); }
  }

  /** A well-formed directive is read as what it asks for. */
  lemma DirectiveRead(format: string, pos: nat, s: Spec, args: seq<Arg>)
    requires WellFormed(s) && StandsAt(format, pos, Written(s))
    ensures Read(format, pos, args) == Asked(s, pos + |Written(s)| - 1, args)
    ensures At(format, pos + |Written(s)| - 1) == s.letter
  {
    PartsStand(format, pos, s);
    AllFlags(format, pos, s);
    ReadIs(format, pos, args, Flagged(NO_FLAGS, s.flags), pos + |s.flags|);
    PartsRead(format, s, Directive(Flagged(NO_FLAGS, s.flags), 0, 0, pos + |s.flags|, args), pos);
  }

  lemma ReadIs(format: string, pos: nat, args: seq<Arg>, f: Flags, w: nat)
    requires SkipFlags(format, pos, NO_FLAGS) == (f, w)
    ensures Read(format, pos, args) == ReadLength(format, ReadPrecision(format, ReadWidth(format, Directive(f, 0, 0, w, args))))
  {
  }

  lemma AllFlags(format: string, pos: nat, s: Spec)
    requires WellFormed(s) && StandsAt(format, pos, s.flags) && StandsAt(format, pos + |s.flags|, s.width)
    requires StandsAt(format, pos + |s.flags| + |s.width|, s.precision)
    requires StandsAt(format, pos + |s.flags| + |s.width| + |s.precision|, s.length + [s.letter])
    ensures SkipFlags(format, pos, NO_FLAGS) == (Flagged(NO_FLAGS, s.flags), pos + |s.flags|)
  {
    PrecisionStops(format, pos + |s.flags| + |s.width|, s);
    WidthStops(format, pos + |s.flags|, s);
    FlagsRead(format, pos, NO_FLAGS, s.flags);
  }

  lemma PartsRead(format: string, s: Spec, d: Directive, pos: nat)
    requires WellFormed(s) && d.width == 0 && d.prec == 0 && d.flags == Flagged(NO_FLAGS, s.flags) && d.pos == pos + |s.flags|
    requires StandsAt(format, d.pos, s.width) && StandsAt(format, d.pos + |s.width|, s.precision)
    requires StandsAt(format, d.pos + |s.width| + |s.precision|, s.length + [s.letter])
    ensures ReadLength(format, ReadPrecision(format, ReadWidth(format, d))) == Asked(s, pos + |Written(s)| - 1, d.args)
    ensures At(format, pos + |Written(s)| - 1) == s.letter
  {
    var e := WidthPart(format, s, d);
    var g := PrecisionPart(format, s, d.args, e);
    LengthRead(format, s, g);
    Put(s, d, e, g, ReadLength(format, g), pos);
  }

  lemma WidthPart(format: string, s: Spec, d: Directive) returns (e: Directive)
    requires WellFormed(s) && d.width == 0
    requires StandsAt(format, d.pos, s.width) && StandsAt(format, d.pos + |s.width|, s.precision)
    requires StandsAt(format, d.pos + |s.width| + |s.precision|, s.length + [s.letter])
    ensures e == ReadWidth(format, d)
    ensures var w := if s.width == "*" then Star(d.args) else Numeral(s.width, 10);
            e == d.(flags := d.flags.(left := d.flags.left || w < 0), width := if w < 0 then -w else w,
                    pos := d.pos + |s.width|, args := AfterWidth(s, d.args))
  {
    PrecisionStops(format, d.pos + |s.width|, s);
    WidthRead(format, s, d);
    e := ReadWidth(format, d);
  }

  lemma PrecisionPart(format: string, s: Spec, args: seq<Arg>, e: Directive) returns (g: Directive)
    requires WellFormed(s) && e.prec == 0 && !e.flags.precision && e.args == AfterWidth(s, args)
    requires StandsAt(format, e.pos, s.precision) && StandsAt(format, e.pos + |s.precision|, s.length + [s.letter])
    ensures g == ReadPrecision(format, e)
    ensures var p := if s.precision == ".*" then Star(e.args) else if s.precision == "" then 0 else Numeral(s.precision[1..], 10);
            g == e.(flags := e.flags.(precision := s.precision != ""), prec := if p < 0 then 0 else p,
                    pos := e.pos + |s.precision|, args := AfterStars(s, args))
  {
    TailStops(format, e.pos + |s.precision|, s);
    PrecisionRead(format, s, e, args);
    g := ReadPrecision(format, e);
  }

  /** The parts put together. */
  lemma Put(s: Spec, d: Directive, e: Directive, g: Directive, r: Directive, pos: nat)
    requires d.width == 0 && d.prec == 0 && d.flags == Flagged(NO_FLAGS, s.flags) && d.pos == pos + |s.flags|
    requires var w := if s.width == "*" then Star(d.args) else Numeral(s.width, 10);
             e == d.(flags := d.flags.(left := d.flags.left || w < 0), width := if w < 0 then -w else w,
                     pos := d.pos + |s.width|, args := AfterWidth(s, d.args))
    requires var p := if s.precision == ".*" then Star(e.args) else if s.precision == "" then 0 else Numeral(s.precision[1..], 10);
             g == e.(flags := e.flags.(precision := s.precision != ""), prec := if p < 0 then 0 else p,
                     pos := e.pos + |s.precision|, args := AfterStars(s, d.args))
    requires r == g.(flags := g.flags.(length := Named(s.length)), pos := g.pos + |s.length|)
    ensures r == Asked(s, pos + |Written(s)| - 1, d.args) && r.pos == pos + |Written(s)| - 1
  {
  }

  // ----- Formats -----

  /** One turn of the loop, taken apart. */
  lemma OutputNext(format: string, pos: nat, args: seq<Arg>, t: Turn)
    requires pos < |format| && t == TurnAt(format, pos, args)
    ensures Output(format, pos, args) == t.text + Output(format, t.pos, t.args)
  {
  }

  lemma PlainTurn(format: string, pos: nat, args: seq<Arg>)
    requires pos < |format| && format[pos] != '%'
    ensures TurnAt(format, pos, args) == Turn([format[pos]], pos + 1, args)
  {
  }

  lemma DirectiveTurn(format: string, pos: nat, args: seq<Arg>, d: Directive, c: char)
    requires pos < |format| && format[pos] == '%' && d == Read(format, pos + 1, args) && c == At(format, d.pos)
    ensures TurnAt(format, pos, args) == Turn(Converted(c, d), d.pos + 1, After(c, d))
  {
  }

  lemma Regroup(a: string, b: string, c: string)
    ensures a + (b + c) == a + b + c
  {
  }

  /** Text without '%' is copied. */
  lemma {:induction false} PlainOutput(format: string, pos: nat, t: string, end: nat, args: seq<Arg>)
    requires StandsAt(format, pos, t) && '%' !in t && end == pos + |t|
    ensures Output(format, pos, args) == t + Output(format, end, args)
    decreases |t|
  {
    if t == "" {
      assert t + Output(format, pos, args) == Output(format, pos, args);
    } else {
      assert t == [t[0]] + t[1..];
      FirstOf(format, pos, t);
      StandsParts(format, pos, [t[0]], t[1..]);
      PlainTurn(format, pos, args);
      OutputNext(format, pos, args, Turn([t[0]], pos + 1, args));
      PlainOutput(format, pos + 1, t[1..], end, args);
      Regroup([t[0]], t[1..], Output(format, end, args));
    }
  }

  /** The letters whose conversion takes an argument. */
  predicate Takes(c: char) {
    c == 'd' || c == 'i' || c == 'u' || c == 'x' || c == 'X' || c == 'o' || c == 'b' || c == 'c' || c == 's' || c == 'p'
  }

  /** A directive is replaced by its conversion, which takes the next argument after its stars. */
  lemma DirectiveOutput(format: string, pos: nat, s: Spec, args: seq<Arg>)
    requires WellFormed(s) && StandsAt(format, pos, "%" + Written(s))
    ensures var d := Asked(s, pos + |Written(s)|, args);
            var left := if Takes(s.letter) && d.args != [] then d.args[1..] else d.args;
            Output(format, pos, args) == Converted(s.letter, d) + Output(format, pos + 1 + |Written(s)|, left)
  {
    StandsParts(format, pos, "%", Written(s));
    FirstOf(format, pos, "%");
    DirectiveRead(format, pos + 1, s, args);
    var d := Asked(s, pos + |Written(s)|, args);
    DirectiveTurn(format, pos, args, d, s.letter);
    OutputNext(format, pos, args, Turn(Converted(s.letter, d), d.pos + 1, After(s.letter, d)));
  }

  /** A format of text, a directive, text, a directive and text prints them in this order; the first
      conversion takes the first argument and the second takes the second. */
  lemma TwoConversions(format: string, a: string, s: Spec, p: nat, b: string, q: nat, t: Spec, r: nat, c: string, args: seq<Arg>)
      returns (l: string, m: string)
    requires '%' !in a && '%' !in b && '%' !in c && WellFormed(s) && WellFormed(t)
    requires s.width != "*" && s.precision != ".*" && t.width != "*" && t.precision != ".*"
    requires Takes(s.letter) && Takes(t.letter) && |args| == 2
    requires StandsAt(format, 0, a) && StandsAt(format, |a|, "%" + Written(s)) && p == |a| + 1 + |Written(s)|
    requires StandsAt(format, p, b) && q == p + |b| && StandsAt(format, q, "%" + Written(t)) && r == q + 1 + |Written(t)|
    requires StandsAt(format, r, c) && |format| == r + |c|
    ensures l == Converted(s.letter, Asked(s, p - 1, args)) && m == Converted(t.letter, Asked(t, r - 1, args[1..]))
    ensures Output(format, 0, args) == a + l + b + m + c
  {
    PlainOutput(format, 0, a, |a|, args);
    l := OneOutput(format, |a|, s, p, b, q, args, args[1..]);
    m := OneOutput(format, q, t, r, c, |format|, args[1..], args[2..]);
    EndOutput(format, args[2..]);
    Join(a, l, b, m, c);
  }

  /** A directive without stars and the text behind it, by their positions. */
  lemma OneOutput(format: string, pos: nat, t: Spec, mid: nat, c: string, end: nat, args: seq<Arg>, rest: seq<Arg>) returns (l: string)
    requires '%' !in c && WellFormed(t) && t.width != "*" && t.precision != ".*" && Takes(t.letter)
    requires StandsAt(format, pos, "%" + Written(t)) && StandsAt(format, mid, c)
    requires mid == pos + 1 + |Written(t)| && end == mid + |c| && args != [] && rest == args[1..]
    ensures l == Converted(t.letter, Asked(t, mid - 1, args)) && Output(format, pos, args) == l + (c + Output(format, end, rest))
  {
    DirectiveTakes(format, pos, t, mid, args, rest);
    PlainOutput(format, mid, c, end, rest);
    l := Converted(t.letter, Asked(t, mid - 1, args));
  }

  /** A directive without stars, by the positions of its ends. */
  lemma DirectiveTakes(format: string, pos: nat, s: Spec, end: nat, args: seq<Arg>, rest: seq<Arg>)
    requires WellFormed(s) && StandsAt(format, pos, "%" + Written(s)) && end == pos + 1 + |Written(s)|
    requires s.width != "*" && s.precision != ".*" && Takes(s.letter) && args != [] && rest == args[1..]
    ensures Output(format, pos, args) == Converted(s.letter, Asked(s, end - 1, args)) + Output(format, end, rest)
  {
    DirectiveOutput(format, pos, s, args);
  }

  lemma EndOutput(format: string, args: seq<Arg>)
    ensures Output(format, |format|, args) == ""
  {
  }

  lemma Join(a: string, u: string, b: string, v: string, c: string)
    ensures a + (u + (b + (v + (c + "")))) == a + u + b + v + c
  {
  }

  // ----- Reading a number back -----

  lemma {:induction false} PrefixRead(t: string, n: nat, u: string)
    requires Digits(t) && n <= |t| && (u != "" ==> !IsDigit(u[0]))
    ensures Prefix(t[n..] + u, Numeral(t[..n], 10)) == Numeral(t, 10)
    decreases |t| - n
  {
    if n == |t| {
      assert t[..n] == t && t[n..] + u == u;
    } else {
      var s := t[n..] + u;
      assert s[0] == t[n] && s[1..] == t[n + 1..] + u;
      NumeralSnoc(t, n);
      PrefixRead(t, n + 1, u);
    }
  }

  /** atoi of an optional sign, digits and anything that does not go on with a digit: the number the
      digits make, negative after '-'. Without a sign and digits it is 0. */
  lemma AtoiMeaning(sign: string, t: string, u: string)
    requires (sign == "" || sign == "+" || sign == "-") && Digits(t) && (u != "" ==> !IsDigit(u[0]))
    requires sign == "" && t == "" && u != "" ==> u[0] != '+' && u[0] != '-'
    ensures AtoiOf(sign + t + u) == if sign == "-" then -Numeral(t, 10) else Numeral(t, 10)
  {
    var s := sign + t + u;
    assert s[|sign|..] == t[0..] + u && t[..0] == "";
    PrefixRead(t, 0, u);
    if sign == "" { assert s[0..] == s; } else { assert s[0] == sign[0]; }
  }

  // ----- An example: a byte in two hexadecimal digits -----

  /** "%02x", as in kernel/modules/pci/src/main.cpp:79, of a byte: two small hexadecimal digits that
      make its value. */
  lemma HexByte(n: nat, args: seq<Arg>, end: nat) returns (digits: string)
    requires n < 256 && args == [Int(n)] && end == 4
    ensures Output("%02x", 0, args) == digits && |digits| == 2 && Numeral(digits, 16) == n && Digital(digits, 16, false)
  {
    var s := Spec("0", "2", "", "", 'x');
    var d := Directive(NO_FLAGS.(zeropad := true), 2, 0, 3, args);
    HexSpec(s, args, d);
    DirectiveTakes("%02x", 0, s, end, args, []);
    EndOutput("%02x", []);
    IntegerPrinted('x', d);
    digits := UnsignedMeaning('x', n, d);
    TwoDigits(digits, n);
  }

  lemma HexSpec(s: Spec, args: seq<Arg>, d: Directive)
    requires s == Spec("0", "2", "", "", 'x') && d == Directive(NO_FLAGS.(zeropad := true), 2, 0, 3, args)
    ensures WellFormed(s) && StandsAt("%02x", 0, "%" + Written(s)) && Asked(s, 3, args) == d && |Written(s)| == 3
  {
    assert Written(s) == "02x" && "%" + "02x" == "%02x";
    assert "2"[..0] == "";
    assert Numeral("2", 10) == Numeral("2"[..0], 10) * 10 + DigitValue('2') == 2;
  }

  lemma TwoDigits(digits: string, n: nat)
    requires n < 256 && Stands(digits, n, 16, false, 2)
    ensures |digits| == 2
  {
    assert Power(16, 2) == 16 * Power(16, 1);
    if |digits| > 2 { LongNumeral(digits, 16, false, 2); }
  }
}
