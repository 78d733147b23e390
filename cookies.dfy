/**
 * The browser cookie jar the screens share, and the text `document.cookie`
 * reads back from it: one `name=value` row per cookie, rows separated by
 * `"; "`.
 */
module Cookies {
  import opened Strings

  const EmailCookie := "userEmail"
  const PasswordCookie := "userPassword"

  /** The separator between rows of `document.cookie`, which both readers split on. */
  const RowSeparator := "; "

  /** At most one value per cookie name; a write replaces the previous value. */
  type Jar = map<string, string>

  /** `document.cookie`, the jar as the one mutable object the pages write. */
  class CookieJar {
    var entries: Jar

    constructor (initial: Jar)
      ensures entries == initial
    {
      entries := initial;
    }
  }

  /** The key of a row, `const [key, ...v] = c.split("=")`. */
  function Key(row: string): string
  {
    Split(row, "=")[0]
  }

  /** The value of a row, `v.join("=")`: the other pieces joined back together. */
  function RawValue(row: string): string
  {
    Join(Split(row, "=")[1..], "=")
  }

  /** The key is the text before the first `=` and the value all the text after it. */
  lemma KeyValueOfRow(row: string)
    ensures Find(row, "=").None? ==> Key(row) == row && RawValue(row) == ""
    ensures Find(row, "=").Some? ==>
      Key(row) == row[..Find(row, "=").value] && RawValue(row) == row[Find(row, "=").value + 1..]
  {
    RestOfSplit(row, "=");
  }

  /** A row built from a key without `=` gives that key and that value back, whatever `=` the value holds. */
  lemma KeyValueOfEntry(k: string, v: string)
    requires '=' !in k
    ensures Key(k + "=" + v) == k && RawValue(k + "=" + v) == v
  {
    ContainsChar(k, '=');
    FindAfterPrefix(k, "=", v);
    KeyValueOfRow(k + "=" + v);
    assert (k + "=" + v)[..|k|] == k;
    assert (k + "=" + v)[|k| + 1..] == v;
  }

  /** The row the browser lists for one cookie. */
  function RowText(entry: (string, string)): string
  {
    entry.0 + "=" + entry.1
  }

  function RowTexts(entries: seq<(string, string)>): seq<string>
  {
    seq(|entries|, k requires 0 <= k < |entries| => RowText(entries[k]))
  }

  /** The text of `document.cookie` when the jar's cookies are listed in the order `entries`. */
  function Render(entries: seq<(string, string)>): string
  {
    Join(RowTexts(entries), RowSeparator)
  }

  /** `entries` lists every cookie of `jar` exactly once, in some order. */
  ghost predicate Lists(entries: seq<(string, string)>, jar: Jar)
  {
    && (forall k :: 0 <= k < |entries| ==> entries[k].0 in jar && jar[entries[k].0] == entries[k].1)
    && (forall name :: name in jar ==> exists k :: 0 <= k < |entries| && entries[k].0 == name)
    && (forall k, l :: 0 <= k < l < |entries| ==> entries[k].0 != entries[l].0)
  }

  /** Names free of `=`, and rows free of the row separator. */
  predicate WellFormed(entries: seq<(string, string)>)
  {
    forall k :: 0 <= k < |entries| ==> '=' !in entries[k].0 && !Contains(RowText(entries[k]), RowSeparator)
  }

  /** The row separator cannot overlap itself. */
  lemma RowSeparatorUnbordered()
    ensures Unbordered(RowSeparator)
  {
    assert RowSeparator[1..] == " ";
    assert RowSeparator[..1] == ";";
  }

  /** Reading the rows back out of the rendered text gives exactly the rows of the jar. */
  lemma SplitRender(entries: seq<(string, string)>)
    requires |entries| >= 1 && WellFormed(entries)
    ensures Split(Render(entries), RowSeparator) == RowTexts(entries)
  {
    RowSeparatorUnbordered();
    SplitJoin(RowTexts(entries), RowSeparator);
  }

  /** An empty jar renders as the empty text, which splits into one empty row. */
  lemma SplitRenderEmpty()
    ensures Split(Render([]), RowSeparator) == [""]
  {
    assert Render([]) == "";
    assert Find("", RowSeparator).None?;
  }
}
