/** Coercions of a filter value that the Elasticsearch and the Infinity translator
    perform in the same way. */
module Coercion {
  import opened Text
  import opened Python

  datatype Result<T> = Ok(value: T) | Unsupported(reason: string)

  function CoerceText(h: Host, v: PyVal): Result<string> {
    if v.PNone? then Unsupported("string-operator value is None")
    else if v.PList? || v.PDict? then Unsupported("string-operator value must be a scalar")
    else if h.Str(v) == [] then Unsupported("string-operator value is empty")
    else Ok(h.Str(v))
  }

  /** The non-blank, trimmed pieces of `s.split(",")`. */
  function SplitCommas(h: Host, s: string, piece: string): seq<PyVal> {
    if s == [] || s[0] == ',' then
      var p := h.Trim(piece);
      (if p == [] then [] else [PStr(p)]) + (if s == [] then [] else SplitCommas(h, s[1..], []))
    else SplitCommas(h, s[1..], piece + [s[0]])
  }

  function RawMembers(h: Host, v: PyVal): seq<PyVal> {
    match v
    case PList(xs) => xs
    case PTuple(xs) => xs
    case PStr(s) =>
      if h.eval(s).Some? && (h.eval(s).value.PList? || h.eval(s).value.PTuple?) then h.eval(s).value.items
      else SplitCommas(h, s, [])
    case _ => [v]
  }

  function NormalMember(h: Host, m: PyVal): PyVal {
    if m.PStr? then PStr(h.Trim(h.Lower(m.s))) else m
  }

  function NormalMembers(h: Host, ms: seq<PyVal>): (r: seq<PyVal>)
    ensures |r| == |ms|
    ensures forall i :: 0 <= i < |ms| ==> r[i] == NormalMember(h, ms[i])
  {
    seq(|ms|, i requires 0 <= i < |ms| => NormalMember(h, ms[i]))
  }

  function CsvOrList(h: Host, v: PyVal): Result<seq<PyVal>> {
    if v.PNone? then Unsupported("membership value is None")
    else if RawMembers(h, v) == [] then Unsupported("membership value resolved to empty list")
    else Ok(NormalMembers(h, RawMembers(h, v)))
  }

  /** The trimming loop of `_csv_or_list`. */
  method NormalizeLoop(h: Host, ms: seq<PyVal>) returns (r: seq<PyVal>)
    ensures r == NormalMembers(h, ms)
  {
    r := [];
    for n := 0 to |ms|
      invariant |r| == n
      invariant forall i :: 0 <= i < n ==> r[i] == NormalMember(h, ms[i])
    {
      if ms[n].PStr? {
        r := r + [PStr(h.Trim(h.Lower(ms[n].s)))];
      } else {
        r := r + [ms[n]];
      }
    }
  }
}
