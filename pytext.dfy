/** How Python turns a value that is a `str` or `None` into text: by `str()`
    (which is what an f-string interpolation does) and by `repr()`. */
module PyText {
  import opened Wrappers
  import Text

  /** `f"{v}"`: a string is written as it is, `None` as the four letters `None`. */
  function Format(v: Option<string>): string
  {
    match v
    case None => "None"
    case Some(s) => s
  }

  /** `repr(s)` for a string that needs no escaping (printable ASCII holding neither a
      single quote nor a backslash, as every string of the status taxonomy is): the
      string between single quotes. */
  function ReprStr(s: string): string
  {
    "'" + s + "'"
  }

  /** `repr(v)` for a `str | None`. */
  function ReprOptional(v: Option<string>): string
  {
    match v
    case None => "None"
    case Some(s) => ReprStr(s)
  }

  /** `repr` of a list, given the `repr` of each element. */
  function ReprList(items: seq<string>): string
  {
    "[" + Text.JoinWith(", ", items) + "]"
  }

  /** Text ending in the `repr` of a list keeps its lead and shows every element's `repr`. */
  lemma ReprListLists(lead: string, items: seq<string>, i: nat)
    requires i < |items|
    ensures Text.StartsWith(lead + ReprList(items), lead)
    ensures Text.Contains(lead + ReprList(items), items[i])
  {
    Text.JoinContains(", ", items, i);
    Text.ContainsWithin(lead + "[", Text.JoinWith(", ", items), "]", items[i]);
    assert lead + ReprList(items) == lead + "[" + Text.JoinWith(", ", items) + "]";
  }
}
