/** `compile_trace_file` (pa4/conv.c): turns a textual memory trace, one
    access per line as in `L 0x7ff000398 8`, into the binary trace format.
    For each line it skips the access type up to the first space, requires
    `0x` or `0X`, accumulates hexadecimal digits up to the next space into a
    32-bit address and writes its four bytes, most significant first. The
    first line that does not fit stops the conversion with status 1 and
    its line number; the records of the lines before it have already been
    written.

    A line is what one `fgets` call stores in the 32-byte buffer; the end
    of the string, like an embedded NUL, reads as the terminating `'\0'`.
    The update `addr = (addr << 4) | d` on a `uint32_t` is written
    `(addr * 16 + d) % 2^32`: the shift drops the top four bits and leaves
    the low four clear, so the `|` adds the digit. */
module TraceCompiler {
  import opened Words
  import opened Wrappers
  import opened TraceFormat

  const NUL: char := '\0'

  /** `*s` at offset k of the line buffer. */
  function At(line: string, k: nat): (c: char)
    ensures k >= |line| ==> c == NUL
  {
    if k < |line| then line[k] else NUL
  }

  predicate IsHexDigit(c: char)
  {
    '0' <= c <= '9' || 'A' <= c <= 'F' || 'a' <= c <= 'f'
  }

  predicate AllHex(ds: string)
  {
    forall k :: 0 <= k < |ds| ==> IsHexDigit(ds[k])
  }

  /** The value of one digit, by the three branches of the digit loop. */
  function DigitValue(c: char): (v: nat)
    requires IsHexDigit(c)
    ensures v < 16
    ensures '0' <= c <= '9' <==> v < 10
  {
    if '0' <= c <= '9' then c as int - '0' as int
    else if 'A' <= c <= 'F' then c as int - 'A' as int + 10
    else c as int - 'a' as int + 10
  }

  /** The number a string of hexadecimal digits denotes. */
  function HexValue(ds: string): nat
    requires AllHex(ds)
  {
    if ds == [] then 0 else HexValue(ds[..|ds| - 1]) * 16 + DigitValue(ds[|ds| - 1])
  }

  /** What the digit loop leaves in the 32-bit `addr`. */
  function HexWord(ds: string): u32
    requires AllHex(ds)
  {
    if ds == [] then 0 else (HexWord(ds[..|ds| - 1]) * 16 + DigitValue(ds[|ds| - 1])) % WORD
  }

  /** One more digit: the step of the digit loop. */
  lemma HexWordSnoc(ds: string, c: char)
    requires AllHex(ds) && IsHexDigit(c)
    ensures AllHex(ds + [c])
    ensures HexWord(ds + [c]) == (HexWord(ds) * 16 + DigitValue(c)) % WORD
  {
    assert (ds + [c])[..|ds|] == ds;
  }

  // ---------------------------------------------------------------------
  // The digit accumulation wraps modulo 2^32

  lemma {:induction false} ModAddMultiple(m: nat, x: nat)
    ensures (m * WORD + x) % WORD == x % WORD
  {
    if m > 0 {
      ModAddMultiple(m - 1, x);
      assert m * WORD + x == ((m - 1) * WORD + x) + WORD;
    }
  }

  lemma ModShift(a: nat, d: nat)
    ensures ((a % WORD) * 16 + d) % WORD == (a * 16 + d) % WORD
  {
    var q, r := a / WORD, a % WORD;
    assert a == q * WORD + r;
    assert a * 16 + d == (q * 16) * WORD + (r * 16 + d);
    ModAddMultiple(q * 16, r * 16 + d);
  }

  /** The accumulated address is the value of all the digits modulo 2^32:
      digits beyond the last eight are shifted out. */
  lemma {:induction false} HexWordIsValueMod(ds: string)
    requires AllHex(ds)
    ensures HexWord(ds) == HexValue(ds) % WORD
  {
    if ds != [] {
      var init := ds[..|ds| - 1];
      HexWordIsValueMod(init);
      ModShift(HexValue(init), DigitValue(ds[|ds| - 1]));
    }
  }

  /** n digits denote a number below 16^n. */
  lemma {:induction false} HexValueBound(ds: string)
    requires AllHex(ds)
    ensures HexValue(ds) < Pow2(4 * |ds|)
  {
    if ds != [] {
      var init := ds[..|ds| - 1];
      HexValueBound(init);
      Pow2Add(4 * |init|, 4);
      MulMonotone(16, HexValue(init) + 1, Pow2(4 * |init|));
    }
  }

  /** Up to eight digits are read exactly. */
  lemma EightDigitsExact(ds: string)
    requires AllHex(ds) && |ds| <= 8
    ensures HexWord(ds) == HexValue(ds)
  {
    HexWordIsValueMod(ds);
    HexValueBound(ds);
    Pow2Monotone(4 * |ds|, 32);
    Pow2Is32();
  }

  // ---------------------------------------------------------------------
  // One line

  /** Where the access-type loop stops scanning from k: the first space or
      NUL. */
  function TypeEnd(line: string, k: nat): (e: nat)
    requires k <= |line|
    ensures k <= e <= |line|
    ensures At(line, e) == ' ' || At(line, e) == NUL
    ensures forall j :: k <= j < e ==> At(line, j) != ' ' && At(line, j) != NUL
    decreases |line| - k
  {
    if At(line, k) == ' ' || At(line, k) == NUL then k else TypeEnd(line, k + 1)
  }

  /** Where the digits starting at k end. */
  function HexEnd(line: string, k: nat): (e: nat)
    requires k <= |line|
    ensures k <= e <= |line|
    ensures !IsHexDigit(At(line, e))
    ensures forall j :: k <= j < e ==> IsHexDigit(At(line, j))
    decreases |line| - k
  {
    if !IsHexDigit(At(line, k)) then k else HexEnd(line, k + 1)
  }

  lemma HexRun(line: string, k: nat, e: nat)
    requires k <= e <= |line|
    requires forall j :: k <= j < e ==> IsHexDigit(At(line, j))
    ensures AllHex(line[k..e])
  {
    assert forall j :: 0 <= j < e - k ==> line[k..e][j] == At(line, k + j);
  }

  /** Where the digits of a line lie, as the scanning code finds them:
      after the access type, a space and `0x` or `0X`, up to the next
      space. None where the code jumps to `bad_input`. */
  function DigitField(line: string): (f: Option<(nat, nat)>)
    ensures f.Some? ==> 3 <= f.value.0 <= f.value.1 < |line|
  {
    var t := TypeEnd(line, 0);
    if At(line, t) == NUL then None
    else if At(line, t + 1) != '0' then None
    else if At(line, t + 2) != 'x' && At(line, t + 2) != 'X' then None
    else
      var e := HexEnd(line, t + 3);
      if At(line, e) != ' ' then None else Some((t + 3, e))
  }

  /** The address one line yields, or None where the loop jumps to
      `bad_input`. */
  function ParseLine(line: string): Option<u32>
  {
    match DigitField(line)
    case None => None
    case Some((h, e)) =>
      HexRun(line, h, e);
      Some(HexWord(line[h..e]))
  }

  /** The accepted shape of a line: an access type without space or NUL,
      one space, `0x` or `0X`, hexadecimal digits, a space, anything. */
  predicate Shaped(line: string, ty: string, x: char, digits: string, rest: string)
  {
    line == ty + [' ', '0', x] + digits + [' '] + rest &&
    (forall k :: 0 <= k < |ty| ==> ty[k] != ' ' && ty[k] != NUL) &&
    (x == 'x' || x == 'X') && AllHex(digits)
  }

  /** Every line of that shape is accepted, with the address its digits
      denote modulo 2^32. */
  lemma ShapedLineParses(line: string, ty: string, x: char, digits: string, rest: string)
    requires Shaped(line, ty, x, digits, rest)
    ensures ParseLine(line) == Some(HexWord(digits))
  {
    var t, h := |ty|, |ty| + 3;
    var e := h + |digits|;
    assert forall j :: 0 <= j < t ==> At(line, j) == ty[j];
    assert At(line, t) == ' ';
    TypeEndIs(line, 0, t);
    assert forall j :: h <= j < e ==> At(line, j) == digits[j - h];
    assert At(line, e) == ' ';
    HexEndIs(line, h, e);
    assert line[h..e] == digits;
  }

  lemma {:induction false} TypeEndIs(line: string, k: nat, t: nat)
    requires k <= t < |line| && At(line, t) == ' '
    requires forall j :: k <= j < t ==> At(line, j) != ' ' && At(line, j) != NUL
    ensures TypeEnd(line, k) == t
    decreases t - k
  {
    if k < t {
      TypeEndIs(line, k + 1, t);
    }
  }

  lemma {:induction false} HexEndIs(line: string, k: nat, e: nat)
    requires k <= e <= |line| && !IsHexDigit(At(line, e))
    requires forall j :: k <= j < e ==> IsHexDigit(At(line, j))
    ensures HexEnd(line, k) == e
    decreases e - k
  {
    if k < e {
      HexEndIs(line, k + 1, e);
    }
  }

  /** Every accepted line has that shape, with the fields found where the
      scanning loops stop; with `ShapedLineParses`, a line is accepted
      exactly when it has the shape. */
  lemma ParsedLineIsShaped(line: string)
    requires ParseLine(line).Some?
    ensures var (h, e) := DigitField(line).value;
      AllHex(line[h..e]) &&
      Shaped(line, line[..h - 3], line[h - 1], line[h..e], line[e + 1..]) &&
      ParseLine(line).value == HexWord(line[h..e])
  {
    var (h, e) := DigitField(line).value;
    var t := h - 3;
    assert t == TypeEnd(line, 0) && e == HexEnd(line, h);
    HexRun(line, h, e);
    assert forall k :: 0 <= k < t ==> line[..t][k] == At(line, k);
    ShapeOfFields(line, t, e);
  }

  /** A line without a space ends the access-type scan at its end and is
      rejected, as is every line whose address field lacks its prefix or
      ends without a space (`ParsedLineIsShaped`). */
  lemma LineWithoutSpaceRejected(line: string)
    requires forall k :: 0 <= k < |line| ==> line[k] != ' '
    ensures ParseLine(line) == None
  {
    var t := TypeEnd(line, 0);
    assert At(line, t) != ' ';
  }

  lemma ShapeOfFields(line: string, t: nat, e: nat)
    requires t + 3 <= e < |line|
    requires line[t] == ' ' && line[t + 1] == '0' && line[e] == ' '
    ensures line == line[..t] + [' ', '0', line[t + 2]] + line[t + 3..e] + [' '] + line[e + 1..]
  {
    assert line == line[..t] + line[t..t + 3] + line[t + 3..e] + line[e..e + 1] + line[e + 1..];
  }

  // ---------------------------------------------------------------------
  // The whole file

  /** What `compile_trace_file` ends with: status 0 after the last line,
      or status 1 at the first bad line (numbered from 1); in both cases
      the bytes written to standard output. */
  datatype Compiled = Done(out: seq<u8>) | BadInput(out: seq<u8>, lineno: nat)

  function Prepend(bytes: seq<u8>, c: Compiled): (r: Compiled)
  {
    match c
    case Done(out) => Done(bytes + out)
    case BadInput(out, n) => BadInput(bytes + out, n)
  }

  /** The verdict on each line. */
  function Parsed(lines: seq<string>): (ps: seq<Option<u32>>)
    ensures |ps| == |lines|
    ensures forall j :: 0 <= j < |lines| ==> ps[j] == ParseLine(lines[j])
  {
    seq(|lines|, j requires 0 <= j < |lines| => ParseLine(lines[j]))
  }

  /** The result of converting lines i .. of a file whose lines have the
      verdicts ps. */
  function CompileFrom(ps: seq<Option<u32>>, i: nat): Compiled
    requires i <= |ps|
    decreases |ps| - i
  {
    if i == |ps| then Done([])
    else match ps[i]
      case None => BadInput([], i + 1)
      case Some(a) => Prepend(EncodeBE(a), CompileFrom(ps, i + 1))
  }

  /** The result of `compile_trace_file` on a whole file. */
  function Compile(lines: seq<string>): Compiled
  {
    CompileFrom(Parsed(lines), 0)
  }

  /** Converting a file succeeds iff every line is accepted, and otherwise
      reports the first line that is not. */
  lemma CompileReportsFirstBadLine(lines: seq<string>)
    ensures var r := Compile(lines);
      r.Done? <==> forall j :: 0 <= j < |lines| ==> ParseLine(lines[j]).Some?
    ensures var r := Compile(lines);
      r.BadInput? ==>
        0 < r.lineno <= |lines| && ParseLine(lines[r.lineno - 1]).None? &&
        forall j :: 0 <= j < r.lineno - 1 ==> ParseLine(lines[j]).Some?
  {
    CompileFromResult(Parsed(lines), 0);
  }

  lemma PrependPrepend(a: seq<u8>, b: seq<u8>, c: Compiled)
    ensures Prepend(a, Prepend(b, c)) == Prepend(a + b, c)
  {
  }

  /** All the verdicts lo .. hi-1 are addresses. */
  predicate Accepted(ps: seq<Option<u32>>, lo: nat, hi: nat)
    requires lo <= hi <= |ps|
  {
    forall j :: lo <= j < hi ==> ps[j].Some?
  }

  /** The addresses of lines lo .. hi-1, all of which are accepted. */
  function Addresses(ps: seq<Option<u32>>, lo: nat, hi: nat): (addrs: seq<u32>)
    requires lo <= hi <= |ps| && Accepted(ps, lo, hi)
    ensures |addrs| == hi - lo
    ensures forall j :: lo <= j < hi ==> addrs[j - lo] == ps[j].value
    decreases hi - lo
  {
    if lo == hi then [] else [ps[lo].value] + Addresses(ps, lo + 1, hi)
  }

  /** Converting from line i either succeeds, when every remaining line is
      accepted, writing the records of all of them, or stops at the first
      line that is not, having written the records of the lines before it. */
  lemma {:induction false} CompileFromResult(ps: seq<Option<u32>>, i: nat)
    requires i <= |ps|
    ensures match CompileFrom(ps, i)
      case Done(out) =>
        Accepted(ps, i, |ps|) && out == Serialize(Addresses(ps, i, |ps|))
      case BadInput(out, n) =>
        i < n <= |ps| && ps[n - 1].None? && Accepted(ps, i, n - 1) &&
        out == Serialize(Addresses(ps, i, n - 1))
    decreases |ps| - i
  {
    if i < |ps| && ps[i].Some? {
      CompileFromResult(ps, i + 1);
      match CompileFrom(ps, i + 1)
      case Done(out) =>
        SerializeAddresses(ps, i, |ps|);
      case BadInput(out, n) =>
        SerializeAddresses(ps, i, n - 1);
    }
  }

  lemma SerializeAddresses(ps: seq<Option<u32>>, lo: nat, hi: nat)
    requires lo < hi <= |ps| && Accepted(ps, lo, hi)
    ensures Serialize(Addresses(ps, lo, hi)) ==
      EncodeBE(ps[lo].value) + Serialize(Addresses(ps, lo + 1, hi))
  {
    var addrs := Addresses(ps, lo, hi);
    assert addrs[1..] == Addresses(ps, lo + 1, hi);
  }

  /** The output of the converter, complete or cut short by a bad line, is
      read back by the simulator as exactly the addresses of the lines
      converted, in order; the line it reports is the first one rejected. */
  lemma ConvertedTraceReadsBack(lines: seq<string>)
    ensures var ps := Parsed(lines);
      match Compile(lines)
      case Done(out) =>
        (forall j :: 0 <= j < |lines| ==> ParseLine(lines[j]).Some?) &&
        Records(out) == Addresses(ps, 0, |lines|)
      case BadInput(out, n) =>
        0 < n <= |lines| && ParseLine(lines[n - 1]).None? &&
        (forall j :: 0 <= j < n - 1 ==> ParseLine(lines[j]).Some?) &&
        Records(out) == Addresses(ps, 0, n - 1)
  {
    var ps := Parsed(lines);
    CompileFromResult(ps, 0);
    match Compile(lines)
    case Done(out) =>
      RecordsOfSerialize(Addresses(ps, 0, |lines|), []);
      assert out + [] == out;
    case BadInput(out, n) =>
      RecordsOfSerialize(Addresses(ps, 0, n - 1), []);
      assert out + [] == out;
  }

  /** Lines 33-39: skip the access type. `k` is where the scan stopped;
      `ok` is false where it met the end of the string first. */
  method SkipAccessType(line: string) returns (ok: bool, k: nat)
    ensures k == TypeEnd(line, 0)
    ensures ok <==> At(line, k) == ' '
  {
    k := 0;
    while At(line, k) != ' '
      invariant k <= TypeEnd(line, 0) && TypeEnd(line, k) == TypeEnd(line, 0)
      decreases |line| - k
    {
      if At(line, k) == NUL {
        return false, k;
      }
      k := k + 1;
    }
    return true, k;
  }

  /** Lines 47-57: accumulate the digits from h up to the next space.
      `k` is where the scan stopped; `ok` is false where it met anything
      but a digit or a space. */
  method ReadDigits(line: string, h: nat) returns (ok: bool, addr: u32, k: nat)
    requires h <= |line|
    ensures k == HexEnd(line, h) && AllHex(line[h..k])
    ensures ok <==> At(line, k) == ' '
    ensures addr == HexWord(line[h..k])
  {
    addr, k := 0, h;
    while At(line, k) != ' '
      invariant h <= k <= HexEnd(line, h) && HexEnd(line, k) == HexEnd(line, h)
      invariant AllHex(line[h..k]) && addr == HexWord(line[h..k])
      decreases |line| - k
    {
      var c := At(line, k);
      var d: nat;
      if '0' <= c <= '9' {
        d := c as int - '0' as int;
      } else if 'A' <= c <= 'F' {
        d := c as int - 'A' as int + 10;
      } else if 'a' <= c <= 'f' {
        d := c as int - 'a' as int + 10;
      } else {
        return false, addr, k;
      }
      assert d == DigitValue(c);
      assert line[h..k + 1] == line[h..k] + [c];
      HexWordSnoc(line[h..k], c);
      addr := (addr * 16 + d) % WORD;
      k := k + 1;
    }
    return true, addr, k;
  }

  /** The body of the `fgets` loop for one line (lines 30-62): None where
      it jumps to `bad_input`, otherwise the address whose four bytes it
      writes. */
  method ReadAddress(line: string) returns (r: Option<u32>)
    ensures r == ParseLine(line)
  {
    var ok, k := SkipAccessType(line);
    if !ok {
      return None;
    }
    k := k + 1;

    // read 32-bit address
    if At(line, k) != '0' {
      return None;
    }
    k := k + 1;
    if At(line, k) != 'x' && At(line, k) != 'X' {
      return None;
    }
    k := k + 1;
    var addr, e;
    ok, addr, e := ReadDigits(line, k);
    if !ok {
      return None;
    }
    return Some(addr);
  }

  /** `compile_trace_file` over the lines `fgets` delivers, `goto
      bad_input` being an early return: `status` is its return value, `out`
      what it wrote with `fwrite`, `lineno` the line number it reports. */
  method CompileTraceFile(lines: seq<string>) returns (status: nat, out: seq<u8>, lineno: nat)
    ensures status == 0 ==> Compile(lines) == Done(out)
    ensures status != 0 ==> status == 1 && Compile(lines) == BadInput(out, lineno)
  {
    ghost var ps := Parsed(lines);
    out, lineno := [], 0;
    while lineno < |lines|
      invariant lineno <= |lines|
      invariant Compile(lines) == Prepend(out, CompileFrom(ps, lineno))
    {
      var line := lines[lineno];
      ghost var rest := CompileFrom(ps, lineno + 1);
      lineno := lineno + 1;
      var r := ReadAddress(line);
      if r.None? {
        assert out + [] == out;
        return 1, out, lineno;
      }
      PrependPrepend(out, EncodeBE(r.value), rest);
      out := out + EncodeBE(r.value);
    }
    assert out + [] == out;
    return 0, out, lineno;
  }
}
