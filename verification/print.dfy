/**
  Compile-time checked format strings (kernel/print.hpp, and the identical
  logic of kernel/print.h).

  `find_formatting_slot` looks for the first `{` that is not the last
  character and reads either `{}` or `{:c}` there; anything else after
  such a `{` is a compile-time failure.  `FormatString<Args...>` splits the
  format into the literal text before each slot, the slot's format
  character and the rest, checking that the number of slots matches the
  number of arguments.  `print` then alternates literal text and the
  arguments, each rendered by `print_value` with its slot's format
  character.

  Views are represented by the characters they cover (`StringView.Chars`);
  a compile-time failure is an `Err` result; `print_value` overloads are
  outside this model and become the parameter `show`.
 */
module Format {

  /** `FormattingSlot`: `fmt[start..end]` is the slot text. */
  datatype Slot = Slot(start: nat, end: nat, format: char)

  /** What `find_formatting_slot` produces: nothing, a slot, or a compile-time failure at a `{`. */
  datatype SlotSearch = NoSlot | Found(slot: Slot) | Malformed(at: nat)

  /** The format character of `{}`. */
  const NoFormat: char := '\0'

  /** `fmt[k]` is a `{` that the search looks at: one that is not the last character. */
  predicate OpensAt(fmt: seq<char>, k: nat)
  {
    k + 1 < |fmt| && fmt[k] == '{'
  }

  /** No `{` of `fmt` is looked at by the search. */
  predicate NoOpening(fmt: seq<char>)
  {
    forall k: nat :: k + 1 < |fmt| ==> fmt[k] != '{'
  }

  /** `k` is the first position the search looks at. */
  predicate FirstOpening(fmt: seq<char>, k: nat)
  {
    OpensAt(fmt, k) && forall j: nat :: j < k ==> fmt[j] != '{'
  }

  /** `{}` at `k`. */
  predicate PlainSlotAt(fmt: seq<char>, k: nat)
  {
    k + 1 < |fmt| && fmt[k] == '{' && fmt[k + 1] == '}'
  }

  /** `{:c}` at `k`, for any character `c`. */
  predicate FormattedSlotAt(fmt: seq<char>, k: nat)
  {
    k + 3 < |fmt| && fmt[k] == '{' && fmt[k + 1] == ':' && fmt[k + 3] == '}'
  }

  /**
    The slot `find_formatting_slot` reports at its first `{`: `{}` with no
    format character, else `{:c}` with format character `c`.
   */
  predicate SlotShape(fmt: seq<char>, s: Slot)
  {
    if PlainSlotAt(fmt, s.start) then s == Slot(s.start, s.start + 2, NoFormat)
    else FormattedSlotAt(fmt, s.start) && s == Slot(s.start, s.start + 4, fmt[s.start + 2])
  }

  /**
    The loop of `find_formatting_slot` from index `i` on: every `{` before
    `i` that the loop could look at has been passed over.
   */
  function FindSlotFrom(fmt: seq<char>, i: nat): (r: SlotSearch)
    requires i <= |fmt|
    requires forall j: nat :: j < i && j + 1 < |fmt| ==> fmt[j] != '{'
    ensures r.NoSlot? <==> NoOpening(fmt)
    ensures r.Found? ==> FirstOpening(fmt, r.slot.start) && SlotShape(fmt, r.slot)
    ensures r.Malformed? ==>
      FirstOpening(fmt, r.at) && !PlainSlotAt(fmt, r.at) && !FormattedSlotAt(fmt, r.at)
    decreases |fmt| - i
  {
    if i + 1 >= |fmt| then NoSlot
    else if fmt[i] != '{' then FindSlotFrom(fmt, i + 1)
    else if fmt[i + 1] == '}' then Found(Slot(i, i + 2, NoFormat))
    else if i + 3 < |fmt| && fmt[i + 1] == ':' && fmt[i + 3] == '}' then
      Found(Slot(i, i + 4, fmt[i + 2]))
    else Malformed(i)
  }

  /** `find_formatting_slot(fmt)`. */
  function FindFormattingSlot(fmt: seq<char>): (r: SlotSearch)
    ensures r.NoSlot? <==> NoOpening(fmt)
    ensures r.Found? ==> FirstOpening(fmt, r.slot.start) && SlotShape(fmt, r.slot)
    ensures r.Malformed? ==>
      FirstOpening(fmt, r.at) && !PlainSlotAt(fmt, r.at) && !FormattedSlotAt(fmt, r.at)
  {
    FindSlotFrom(fmt, 0)
  }

  /** There is only one first opening. */
  lemma {:induction false} FirstOpeningUnique(fmt: seq<char>, a: nat, b: nat)
    requires FirstOpening(fmt, a) && FirstOpening(fmt, b)
    ensures a == b
  {
  }

  /** `FormatString<Args...>`: literal text and format character per argument, then the tail text. */
  datatype FormatString =
    | Last(inner: seq<char>)
    | Piece(inner: seq<char>, format: char, rest: FormatString)
  {
    /** The number of arguments the format string was built for. */
    function Arity(): nat
    {
      if Last? then 0 else 1 + rest.Arity()
    }
  }

  /** The compile-time failures of the `FormatString` constructors. */
  datatype FormatError =
    | MalformedSlot(at: nat)     // "Malformed formatting slot."
    | TooFewArguments            // "Given less arguments than expected by the format string."
    | TooManyArguments           // "Given more arguments than expected by the format string."

  datatype Parsed = Ok(fs: FormatString) | Err(error: FormatError)

  /**
    The `FormatString` constructor for `argc` arguments, applied to `fmt`.
    A malformed slot fails first (inside `find_formatting_slot`); then a
    slot left over with no argument, or an argument left over with no slot.
   */
  function MakeFormatString(fmt: seq<char>, argc: nat): (r: Parsed)
    ensures r.Ok? ==> r.fs.Arity() == argc
    ensures r.Err? && r.error.TooFewArguments? ==> !NoOpening(fmt)
    decreases argc
  {
    match FindFormattingSlot(fmt)
    case Malformed(at) => Err(MalformedSlot(at))
    case NoSlot =>
      if argc == 0 then Ok(Last(fmt)) else Err(TooManyArguments)
    case Found(slot) =>
      if argc == 0 then Err(TooFewArguments)
      else
        match MakeFormatString(fmt[slot.end..], argc - 1)
        case Ok(rest) => Ok(Piece(fmt[..slot.start], slot.format, rest))
        case Err(e) => Err(e)
  }

  /** The text of a slot with the given format character. */
  function SlotText(format: char): seq<char>
  {
    if format == NoFormat then "{}" else "{:" + [format] + "}"
  }

  /** The format string written back out: literal text with the slots in place. */
  function Render(fs: FormatString): seq<char>
  {
    match fs
    case Last(inner) => inner
    case Piece(inner, format, rest) => inner + SlotText(format) + Render(rest)
  }

  /**
    A format string `MakeFormatString` can produce: no literal piece before a
    slot contains `{`, and the tail contains none the search would look at.
   */
  predicate WellFormed(fs: FormatString)
  {
    match fs
    case Last(inner) => NoOpening(inner)
    case Piece(inner, _, rest) => '{' !in inner && WellFormed(rest)
  }

  /** A found slot splits the format into the text before it, its own text and the rest. */
  lemma {:induction false} SplitAtSlot(fmt: seq<char>, slot: Slot)
    requires FirstOpening(fmt, slot.start) && SlotShape(fmt, slot)
    requires NoFormat !in fmt
    ensures slot.start <= slot.end <= |fmt|
    ensures fmt == fmt[..slot.start] + SlotText(slot.format) + fmt[slot.end..]
    ensures '{' !in fmt[..slot.start]
  {
    var k := slot.start;
    if !PlainSlotAt(fmt, k) {
      assert fmt[k + 2] in fmt;
      assert fmt[k..slot.end] == SlotText(slot.format);
    } else {
      assert fmt[k..slot.end] == SlotText(slot.format);
    }
    assert fmt == fmt[..k] + fmt[k..slot.end] + fmt[slot.end..];
    forall c | c in fmt[..k]
      ensures c != '{'
    {
      var j :| 0 <= j < k && fmt[..k][j] == c;
    }
  }

  /** A suffix of a NUL-free format is NUL-free. */
  lemma {:induction false} NoNulInSuffix(fmt: seq<char>, n: nat)
    requires NoFormat !in fmt && n <= |fmt|
    ensures NoFormat !in fmt[n..]
  {
    forall c | c in fmt[n..]
      ensures c != NoFormat
    {
      var j :| 0 <= j < |fmt[n..]| && fmt[n..][j] == c;
      assert fmt[n + j] == c;
    }
  }

  /**
    Parsing keeps every character: the pieces and slots, written back out,
    are the format string again.  A `{:\0}` slot reads like `{}`, so the
    format must not contain NUL.
   */
  lemma {:induction false} RenderOfParse(fmt: seq<char>, argc: nat)
    requires MakeFormatString(fmt, argc).Ok?
    requires NoFormat !in fmt
    ensures Render(MakeFormatString(fmt, argc).fs) == fmt
    ensures WellFormed(MakeFormatString(fmt, argc).fs)
    decreases argc
  {
    var found := FindFormattingSlot(fmt);
    if found.Found? {
      var slot := found.slot;
      SplitAtSlot(fmt, slot);
      NoNulInSuffix(fmt, slot.end);
      RenderOfParse(fmt[slot.end..], argc - 1);
    }
  }

  /** The search finds the slot after a literal piece without `{`. */
  lemma {:induction false} FindAfterPiece(inner: seq<char>, format: char, tail: seq<char>)
    requires '{' !in inner
    ensures FindFormattingSlot(inner + SlotText(format) + tail) ==
            Found(Slot(|inner|, |inner| + |SlotText(format)|, format))
  {
    var fmt := inner + SlotText(format) + tail;
    var k := |inner|;
    assert fmt[k] == '{' && fmt[k + 1] == (if format == NoFormat then '}' else ':');
    assert FirstOpening(fmt, k) by {
      forall j: nat | j < k
        ensures fmt[j] != '{'
      {
        assert fmt[j] == inner[j];
      }
    }
    if format != NoFormat {
      assert fmt[k + 2] == format && fmt[k + 3] == '}';
    }
    var r := FindFormattingSlot(fmt);
    if r.Found? {
      FirstOpeningUnique(fmt, k, r.slot.start);
    } else if r.Malformed? {
      FirstOpeningUnique(fmt, k, r.at);
    }
  }

  /** Parsing a literal piece and a slot in front of a tail parses the tail for one argument fewer. */
  lemma {:induction false} ParseAfterPiece(inner: seq<char>, format: char, tail: seq<char>, argc: nat)
    requires '{' !in inner
    ensures MakeFormatString(inner + SlotText(format) + tail, argc + 1) ==
            match MakeFormatString(tail, argc)
            case Ok(rest) => Ok(Piece(inner, format, rest))
            case Err(e) => Err(e)
  {
    var fmt := inner + SlotText(format) + tail;
    FindAfterPiece(inner, format, tail);
    var e := |inner| + |SlotText(format)|;
    assert fmt[e..] == tail;
    assert fmt[..|inner|] == inner;
  }

  /**
    Conversely, writing out any well-formed format string and parsing it
    for its number of arguments gives the same format string back.
   */
  lemma {:induction false} ParseOfRender(fs: FormatString)
    requires WellFormed(fs)
    ensures MakeFormatString(Render(fs), fs.Arity()) == Ok(fs)
    decreases fs
  {
    match fs
    case Last(inner) =>
    case Piece(inner, format, rest) =>
      ParseAfterPiece(inner, format, Render(rest), rest.Arity());
      ParseOfRender(rest);
  }

  // ---------------------------------------------------------------------
  // print and println

  /**
    `print(format, args...)`: the literal text before each slot, then the
    slot's argument as `show` renders it with the slot's format character,
    and finally the tail text.
   */
  function Print<A>(fs: FormatString, args: seq<A>, show: (A, char) -> seq<char>): (out: seq<char>)
    requires |args| == fs.Arity()
    ensures fs.Last? ==> out == fs.inner
    ensures fs.Piece? ==> |out| >= |fs.inner| && out[..|fs.inner|] == fs.inner
    decreases fs
  {
    match fs
    case Last(inner) => inner
    case Piece(inner, format, rest) => inner + show(args[0], format) + Print(rest, args[1..], show)
  }

  /** `println(format, args...)`: the same output followed by a newline. */
  function Println<A>(fs: FormatString, args: seq<A>, show: (A, char) -> seq<char>): (out: seq<char>)
    requires |args| == fs.Arity()
    ensures |out| >= 1 && out[|out| - 1] == '\n'
    ensures out[..|out| - 1] == Print(fs, args, show)
  {
    Print(fs, args, show) + "\n"
  }

  /**
    `print` keeps the literal text verbatim and replaces each slot by its
    own argument: when every argument renders as its slot's text, the
    output is the format string itself.
   */
  lemma {:induction false} PrintKeepsLiteralText<A>(fs: FormatString, args: seq<A>,
                                                     show: (A, char) -> seq<char>)
    requires |args| == fs.Arity()
    requires forall a, c :: show(a, c) == SlotText(c)
    ensures Print(fs, args, show) == Render(fs)
    decreases fs
  {
    match fs
    case Last(_) =>
    case Piece(_, _, rest) =>
      PrintKeepsLiteralText(rest, args[1..], show);
  }

  /**
    `f` followed by `g`: `f`'s slots, then `g`'s, with `f`'s tail text
    joined to the text before `g`'s first slot.
   */
  function Append(f: FormatString, g: FormatString): (r: FormatString)
    ensures r.Arity() == f.Arity() + g.Arity()
    ensures Render(r) == Render(f) + Render(g)
    decreases f
  {
    match f
    case Last(t) =>
      (match g
       case Last(u) => Last(t + u)
       case Piece(u, c, rest) =>
         assert Render(Piece(t + u, c, rest)) == t + Render(g);
         Piece(t + u, c, rest))
    case Piece(i, c, rest) => Piece(i, c, Append(rest, g))
  }

  /**
    The arguments fill the slots in order: printing `f` then `g` with the
    arguments `a + b` prints `f` with `a`, then `g` with `b`.
   */
  lemma {:induction false} PrintAppend<A>(f: FormatString, g: FormatString, a: seq<A>, b: seq<A>,
                                          show: (A, char) -> seq<char>)
    requires |a| == f.Arity() && |b| == g.Arity()
    ensures Print(Append(f, g), a + b, show) == Print(f, a, show) + Print(g, b, show)
    decreases f
  {
    match f
    case Last(t) =>
      assert a + b == b;
      PrintAfterText(t, g, b, show);
    case Piece(i, c, rest) =>
      assert (a + b)[0] == a[0];
      assert (a + b)[1..] == a[1..] + b;
      PrintAppend(rest, g, a[1..], b, show);
      calc {
        Print(Append(f, g), a + b, show);
        i + show(a[0], c) + Print(Append(rest, g), a[1..] + b, show);
        i + show(a[0], c) + (Print(rest, a[1..], show) + Print(g, b, show));
        Print(f, a, show) + Print(g, b, show);
      }
  }

  /** Literal text in front of a format string is printed in front of its output. */
  lemma {:induction false} PrintAfterText<A>(t: seq<char>, g: FormatString, b: seq<A>,
                                             show: (A, char) -> seq<char>)
    requires |b| == g.Arity()
    ensures Print(Append(Last(t), g), b, show) == t + Print(g, b, show)
  {
    match g
    case Last(u) =>
    case Piece(u, c, rest) =>
      assert Print(Piece(t + u, c, rest), b, show) == t + u + show(b[0], c) + Print(rest, b[1..], show);
  }

  /** A single slot is replaced by its argument, rendered with that slot's format character. */
  lemma {:induction false} PrintOneSlot<A>(i: seq<char>, c: char, t: seq<char>, x: A,
                                           show: (A, char) -> seq<char>)
    ensures Print(Piece(i, c, Last(t)), [x], show) == i + show(x, c) + t
  {
    assert [x][1..] == [];
  }

  /** A `{` in the last position is not a slot: `"50{"` needs no argument. */
  lemma {:induction false} TrailingBraceIsText()
    ensures MakeFormatString("50{", 0) == Ok(Last("50{"))
    ensures MakeFormatString("{", 1) == Err(TooManyArguments)
  {
    assert FindSlotFrom("50{", 2) == NoSlot;
    assert FindSlotFrom("50{", 1) == NoSlot;
    assert FindSlotFrom("{", 0) == NoSlot;
  }

  /** The examples of the header: `{}` and `{:x}` each take one argument. */
  lemma {:induction false} HeaderExamples()
    ensures MakeFormatString("n: {}, hex: {:x}.", 2) ==
            Ok(Piece("n: ", NoFormat, Piece(", hex: ", 'x', Last("."))))
    ensures MakeFormatString("n: {}, hex: {:x}.", 1) == Err(TooFewArguments)
    ensures MakeFormatString("{:xx}", 1) == Err(MalformedSlot(0))
  {
    var fmt := "n: {}, hex: {:x}.";
    assert FindSlotFrom(fmt, 3) == Found(Slot(3, 5, NoFormat));
    var t := fmt[5..];
    assert t == ", hex: {:x}.";
    assert FindSlotFrom(t, 7) == Found(Slot(7, 11, 'x'));
    assert t[..7] == ", hex: " && t[11..] == ".";
    assert FindSlotFrom(".", 0) == NoSlot;
    assert fmt[..3] == "n: ";
    assert FindSlotFrom("{:xx}", 0) == Malformed(0);
  }
}
