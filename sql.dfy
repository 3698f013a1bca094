/**
 * The parts of SQLite's value semantics that the selection queries of the
 * mirror engine depend on: ASCII-only `lower()`, three-valued comparison
 * with NULL, and the "NULL or empty string" test the reports use.
 */
module SqlValues {
  import opened Wrappers

  /** SQLite's built-in `lower()` folds only the ASCII letters A-Z. */
  function LowerChar(c: char): char
  {
    if 'A' <= c <= 'Z' then (c as int + 32) as char else c
  }

  function Lower(s: string): (r: string)
    ensures |r| == |s|
    ensures forall i :: 0 <= i < |s| ==> r[i] == LowerChar(s[i])
  {
    if s == [] then [] else [LowerChar(s[0])] + Lower(s[1..])
  }

  /** `lower(NULL)` is NULL. */
  function LowerOpt(v: Option<string>): (r: Option<string>)
    ensures r.None? <==> v.None?
  {
    match v
    case None => None
    case Some(s) => Some(Lower(s))
  }

  /** The three truth values of SQL; a WHERE clause keeps a row only on Yes. */
  datatype Truth = Yes | No | Unknown

  /** `a != b`: Unknown as soon as either side is NULL. */
  function NotEqual(a: Option<string>, b: Option<string>): Truth
  {
    if a.None? || b.None? then Unknown
    else if a.value != b.value then Yes
    else No
  }

  /** `v IS NULL` never yields Unknown. */
  function IsNull(v: Option<string>): Truth
  {
    if v.None? then Yes else No
  }

  /** Kleene disjunction, as SQL's OR. */
  function Or(a: Truth, b: Truth): (r: Truth)
    ensures r.Yes? <==> a.Yes? || b.Yes?
    ensures r.No? <==> a.No? && b.No?
  {
    if a == Yes || b == Yes then Yes
    else if a == Unknown || b == Unknown then Unknown
    else No
  }

  /**
   * `(v IS NULL OR v = '')` in the reports; for Python's truthiness test
   * `if v` on a column value, `Blank(v)` is exactly the falsy case.
   */
  predicate Blank(v: Option<string>)
  {
    v == None || v == Some("")
  }
}
