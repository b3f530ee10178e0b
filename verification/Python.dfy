/** The Python values a metadata filter can carry, and the parts of the language
    runtime the sources rely on but that are not defined in the repository. */
module Python {
  import opened Text

  /** Values produced by JSON requests and by `ast.literal_eval`.  Integers and
      floats are one numeric kind; dictionaries and everything else are opaque. */
  datatype PyVal =
    | PNone
    | PBool(b: bool)
    | PNum(r: real)
    | PStr(s: string)
    | PList(items: seq<PyVal>)
    | PTuple(items: seq<PyVal>)
    | PDict(id: string)
    | POther(id: string)

  datatype Cmp = GT | LT | GE | LE

  /** The runtime: character classes, `ast.literal_eval` (None when it raises),
      `str(v)` of a non-string, `x in v` for opaque containers (None when it
      raises), the truth value of opaque containers, and the ordering of values
      (None when it raises). */
  datatype Host = Host(
    lower: char -> char,
    space: char -> bool,
    digit: char -> bool,
    eval: string -> Option<PyVal>,
    show: PyVal -> string,
    has: (PyVal, string) -> Option<bool>,
    truthy: PyVal -> bool,
    order: (Cmp, PyVal, PyVal) -> Option<bool>)
  {
    /** `str.lower` is idempotent on every character and keeps blanks blank. */
    ghost predicate Sane() {
      && (forall c {:trigger lower(lower(c))} :: lower(lower(c)) == lower(c))
      && (forall c {:trigger space(lower(c))} :: space(lower(c)) == space(c))
    }

    function Lower(s: string): string {
      MapChars(lower, s)
    }

    function Trim(s: string): string {
      Strip(space, s)
    }

    /** `str(v)`. */
    function Str(v: PyVal): string {
      if v.PStr? then v.s else show(v)
    }

    /** The ten-character YYYY-MM-DD test. */
    predicate IsDate(s: string) {
      && |s| == 10 && s[4] == '-' && s[7] == '-'
      && (forall i :: 0 <= i < 10 && i != 4 && i != 7 ==> digit(s[i]))
    }

    /** A text that neither literal evaluation nor the date test gives a special
        meaning to, with or without its surrounding blanks. */
    predicate PlainText(s: string) {
      !IsDate(Trim(s)) && eval(s).None? && eval(Trim(s)).None?
    }
  }

  /** The number a value stands for in comparisons: booleans count as 0 and 1. */
  function Number(v: PyVal): Option<real> {
    match v
    case PNum(r) => Some(r)
    case PBool(b) => Some(if b then 1.0 else 0.0)
    case _ => None
  }

  /** `bool(v)`. */
  function Truth(h: Host, v: PyVal): bool {
    match v
    case PNone => false
    case PBool(b) => b
    case PNum(r) => r != 0.0
    case PStr(s) => s != []
    case PList(xs) => xs != []
    case PTuple(xs) => xs != []
    case _ => h.truthy(v)
  }

  /** `a == b`. */
  predicate PyEq(a: PyVal, b: PyVal) {
    match (a, b)
    case (PStr(x), PStr(y)) => x == y
    case (PNone, PNone) => true
    case (PList(xs), PList(ys)) => |xs| == |ys| && forall i :: 0 <= i < |xs| ==> PyEq(xs[i], ys[i])
    case (PTuple(xs), PTuple(ys)) => |xs| == |ys| && forall i :: 0 <= i < |xs| ==> PyEq(xs[i], ys[i])
    case (PDict(x), PDict(y)) => x == y
    case (POther(x), POther(y)) => x == y
    case _ => Number(a).Some? && Number(a) == Number(b)
  }

  lemma LowerTwice(h: Host, s: string)
    requires h.Sane()
    ensures h.Lower(h.Lower(s)) == h.Lower(s)
  {
  }

  lemma {:induction false} TrimLeftLower(h: Host, s: string)
    requires h.Sane()
    ensures TrimLeft(h.space, h.Lower(s)) == h.Lower(TrimLeft(h.space, s))
  {
    if s == [] {
    } else {
      assert h.space(h.Lower(s)[0]) == h.space(s[0]);
      assert h.Lower(s)[1..] == h.Lower(s[1..]);
      TrimLeftLower(h, s[1..]);
    }
  }

  lemma {:induction false} TrimRightLower(h: Host, s: string)
    requires h.Sane()
    ensures TrimRight(h.space, h.Lower(s)) == h.Lower(TrimRight(h.space, s))
  {
    if s == [] {
    } else {
      assert h.space(h.Lower(s)[|s| - 1]) == h.space(s[|s| - 1]);
      assert h.Lower(s)[..|s| - 1] == h.Lower(s[..|s| - 1]);
      TrimRightLower(h, s[..|s| - 1]);
    }
  }

  /** Trimming and lower-casing commute. */
  lemma TrimLower(h: Host, s: string)
    requires h.Sane()
    ensures h.Trim(h.Lower(s)) == h.Lower(h.Trim(s))
  {
    TrimLeftLower(h, s);
    TrimRightLower(h, TrimLeft(h.space, s));
  }
}
