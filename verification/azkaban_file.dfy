/**
 * Files of an Azkaban project (`AzkabanFileAbstruct` and its job subclass):
 * file naming from a basename and an extension, and the `key=value` text a
 * parameter set renders to. Also the `Properties` file kind.
 */
module AzkabanFile {
  import opened Errors
  import opened Seqs
  import opened Parameters

  // ---------------------------------------------------------------- integers

  predicate IsDigit(c: char) {
    '0' <= c <= '9'
  }

  function DigitChar(d: nat): (c: char)
    requires d < 10
    ensures IsDigit(c) && c as int - '0' as int == d
  {
    (d + '0' as int) as char
  }

  /** Decimal digits of `n`, most significant first, without leading zeros. */
  function NatToString(n: nat): (r: string)
    ensures |r| >= 1
    ensures forall i :: 0 <= i < |r| ==> IsDigit(r[i])
    ensures r[0] == '0' <==> n == 0
    ensures n == 0 ==> r == "0"
  {
    if n < 10 then [DigitChar(n)] else NatToString(n / 10) + [DigitChar(n % 10)]
  }

  /** The number a string of decimal digits denotes. */
  function DigitsValue(s: string): nat
    requires forall i :: 0 <= i < |s| ==> IsDigit(s[i])
  {
    if |s| == 0 then 0
    else
      assert IsDigit(s[|s| - 1]);
      DigitsValue(s[..|s| - 1]) * 10 + (s[|s| - 1] as int - '0' as int)
  }

  /** Reading back the digits of `n` gives `n`. */
  lemma {:induction false} NatToStringRoundTrip(n: nat)
    ensures DigitsValue(NatToString(n)) == n
  {
    if n >= 10 {
      NatToStringRoundTrip(n / 10);
      var s := NatToString(n);
      assert s[..|s| - 1] == NatToString(n / 10);
    }
  }

  /** `str(i)` / `"{0}".format(i)` for an integer. */
  function IntToString(i: int): string {
    if i < 0 then "-" + NatToString(-i) else NatToString(i)
  }

  /** Decimal digits in canonical form: at least one, and no leading zero
      unless the number is zero itself. */
  predicate Canonical(digits: string) {
    && |digits| >= 1
    && (forall j :: 0 <= j < |digits| ==> IsDigit(digits[j]))
    && (digits[0] == '0' ==> |digits| == 1)
  }

  /** The decimal rendering of an integer is a sign for negatives followed by
      canonical digits that denote its magnitude; zero has no sign. */
  lemma IntToStringSpec(i: int)
    ensures var r := IntToString(i);
            if i < 0 then
              && |r| >= 2 && r[0] == '-'
              && Canonical(r[1..])
              && r[1] != '0'
              && DigitsValue(r[1..]) == -i
            else
              && Canonical(r)
              && DigitsValue(r) == i
  {
    if i < 0 {
      NatToStringRoundTrip(-i);
      assert IntToString(i)[1..] == NatToString(-i);
    } else {
      NatToStringRoundTrip(i);
    }
  }

  // ---------------------------------------------------------------- values

  /** `str(x)` of a list element. */
  function RenderAtom(a: Atom): string {
    match a
    case AStr(s) => s
    case AInt(i) => IntToString(i)
    case AOther(t) => t
  }

  function RenderAtoms(xs: seq<Atom>): (r: seq<string>)
    ensures |r| == |xs|
    ensures forall i :: 0 <= i < |xs| ==> r[i] == RenderAtom(xs[i])
  {
    seq(|xs|, i requires 0 <= i < |xs| => RenderAtom(xs[i]))
  }

  /** The value kinds the text conversion accepts: strings, integers, lists,
      and dicts whose keys are strings (the comma join of a dict's keys
      rejects any other key). */
  predicate Renderable(v: Value) {
    match v
    case VStr(_) => true
    case VInt(_) => true
    case VList(_) => true
    case VDict(ks) => forall i :: 0 <= i < |ks| ==> ks[i].AStr?
    case VOther(_) => false
  }

  /** The right-hand side of one `key=value` line, or TypeError. */
  function RenderValue(v: Value): (r: Result<string>)
    ensures r.Success? <==> Renderable(v)
    ensures r.Failure? ==> r.error == TypeError
    ensures v.VStr? ==> r == Success(v.s)
    ensures v.VInt? ==> r == Success(IntToString(v.i))
    ensures v.VList? ==> r == Success(Join(RenderAtoms(v.items), ","))
    ensures v.VDict? && Renderable(v) ==> r == Success(Join(RenderAtoms(v.keys), ","))
  {
    match v
    case VStr(s) => Success(s)
    case VInt(i) => Success(IntToString(i))
    case VList(xs) => Success(Join(RenderAtoms(xs), ","))
    case VDict(ks) =>
      if forall i :: 0 <= i < |ks| ==> ks[i].AStr? then Success(Join(RenderAtoms(ks), ","))
      else Failure(TypeError)
    case VOther(_) => Failure(TypeError)
  }

  function Line(e: Entry): Result<string> {
    var rhs :- RenderValue(e.value);
    Success(e.key + "=" + rhs)
  }

  /** One `key=value` line per entry, in order; TypeError as soon as an entry's
      value cannot be rendered. */
  function LinesOf(es: seq<Entry>): (r: Result<seq<string>>)
    ensures r.Failure? ==> r.error == TypeError
    ensures r.Success? ==> |r.value| == |es|
  {
    if |es| == 0 then Success([])
    else
      var first :- Line(es[0]);
      var rest :- LinesOf(es[1..]);
      Success([first] + rest)
  }

  /** The lines fail exactly when some value cannot be rendered; otherwise
      line `i` is the `i`-th key, '=', and the rendering of its value. */
  lemma {:induction false} LinesOfSpec(es: seq<Entry>)
    ensures LinesOf(es).Failure? <==> exists i :: 0 <= i < |es| && !Renderable(es[i].value)
    ensures LinesOf(es).Success? ==>
              forall i :: 0 <= i < |es| ==> LinesOf(es).value[i] == es[i].key + "=" + RenderValue(es[i].value).value
  {
    if |es| > 0 {
      var tail := es[1..];
      LinesOfSpec(tail);
      if LinesOf(tail).Failure? {
        var i :| 0 <= i < |tail| && !Renderable(tail[i].value);
        assert !Renderable(es[i + 1].value);
      } else if Renderable(es[0].value) {
        forall i | 1 <= i < |es|
          ensures Renderable(es[i].value)
        {
          assert es[i] == tail[i - 1];
        }
        forall i | 1 <= i < |es|
          ensures LinesOf(es).value[i] == es[i].key + "=" + RenderValue(es[i].value).value
        {
          assert es[i] == tail[i - 1];
        }
      }
    }
  }

  function Lines(p: Params): Result<seq<string>> {
    LinesOf(p.entries)
  }

  /** `AzkabanFileAbstruct.text`: the lines joined by a newline, with no
      trailing newline. */
  function Text(p: Params): (r: Result<string>)
    ensures r.Failure? ==> r.error == TypeError
  {
    var lines :- Lines(p);
    Success(Join(lines, "\n"))
  }

  /** The text conversion raises TypeError exactly when some value is of a
      kind it cannot render. */
  lemma TextFailsIffUnrenderable(p: Params)
    ensures Text(p).Failure? <==> exists i :: 0 <= i < |p.entries| && !Renderable(p.entries[i].value)
    ensures Text(p).Failure? ==> Text(p).error == TypeError
  {
    LinesOfSpec(p.entries);
  }

  /** When no key or rendered value contains a newline, splitting the text at
      newlines gives back exactly one `key=value` line per parameter, in order. */
  lemma TextLinesRoundTrip(p: Params)
    requires Text(p).Success?
    requires |p.entries| >= 1
    requires forall i :: 0 <= i < |p.entries| ==>
               '\n' !in p.entries[i].key && Renderable(p.entries[i].value) && '\n' !in RenderValue(p.entries[i].value).value
    ensures var lines := Split(Text(p).value, '\n');
            && |lines| == |p.entries|
            && forall i :: 0 <= i < |lines| ==> lines[i] == p.entries[i].key + "=" + RenderValue(p.entries[i].value).value
  {
    LinesOfSpec(p.entries);
    var lines := Lines(p).value;
    forall i | 0 <= i < |lines|
      ensures '\n' !in lines[i]
    {
      assert lines[i] == p.entries[i].key + "=" + RenderValue(p.entries[i].value).value;
    }
    SplitJoin(lines, '\n');
  }

  // ---------------------------------------------------------------- naming

  /** `AzkabanFileAbstruct.filename`: `<basename>.<ext>`. */
  function FileName(basename: string, ext: string): string {
    basename + "." + ext
  }

  lemma JobFileNameIs(basename: string)
    ensures FileName(basename, "job") == basename + ".job"
  {
    assert "." + "job" == ".job";
  }

  /** Index of the last '.' in `s`, if any. */
  function LastDot(s: string): (r: Option<nat>)
    ensures r.Some? ==> r.value < |s| && s[r.value] == '.' && forall k :: r.value < k < |s| ==> s[k] != '.'
    ensures r.None? ==> '.' !in s
  {
    if |s| == 0 then None
    else if s[|s| - 1] == '.' then Some(|s| - 1)
    else
      var r := LastDot(s[..|s| - 1]);
      assert s == s[..|s| - 1] + [s[|s| - 1]];
      r
  }

  /** Splits a file name at its last '.', into basename and extension. */
  function SplitExtension(filename: string): (string, string) {
    match LastDot(filename)
    case Some(i) => (filename[..i], filename[i + 1..])
    case None => (filename, "")
  }

  /** A file name splits back into the basename and the extension it was made
      from, whenever the extension has no '.' of its own. */
  lemma FileNameSplits(basename: string, ext: string)
    requires '.' !in ext
    ensures SplitExtension(FileName(basename, ext)) == (basename, ext)
  {
    var f := FileName(basename, ext);
    var i := |basename|;
    assert f[i] == '.';
    assert f[i + 1..] == ext;
    assert forall k :: i < k < |f| ==> f[k] == ext[k - i - 1];
    var j := LastDot(f).value;
    assert j == i;
    assert f[..i] == basename;
  }

  // ---------------------------------------------------------------- properties

  /** An Azkaban `.properties` file: a name and flat parameters. */
  datatype Properties = Properties(name: string, params: Params)

  function PropertiesFileName(props: Properties): string {
    FileName(props.name, "properties")
  }

  lemma PropertiesFileNameIs(props: Properties)
    ensures PropertiesFileName(props) == props.name + ".properties"
  {
    assert "." + "properties" == ".properties";
  }

  /** What a constructor accepts as `properties`: nothing, a Properties
      object, a dict, or something else (TypeError). */
  datatype PropertiesArg = NoProperties | PropertiesObject(props: Properties) | PropertiesDict(dict: Params) | OtherArg

  /** The `properties` handling shared by the Flow and Project constructors: a
      dict becomes a Properties named after its owner. */
  function ResolveProperties(owner: string, arg: PropertiesArg): (r: Result<Option<Properties>>)
    ensures r.Failure? <==> arg.OtherArg?
    ensures r.Failure? ==> r.error == TypeError
    ensures arg.PropertiesDict? ==> r == Success(Some(Properties(owner, arg.dict)))
    ensures arg.NoProperties? ==> r == Success(None)
    ensures arg.PropertiesObject? ==> r == Success(Some(arg.props))
  {
    match arg
    case NoProperties => Success(None)
    case PropertiesObject(p) => Success(Some(p))
    case PropertiesDict(d) => Success(Some(Properties(owner, d)))
    case OtherArg => Failure(TypeError)
  }
}
