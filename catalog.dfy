/**
 * The PO-catalog entry as the tools see it: the fields of a polib `POEntry`
 * that the reconciliation, export and normalization code reads or writes.
 */
module Catalog {
  import opened Wrappers

  /** One `#: path:line` reference; polib keeps both halves as strings. */
  datatype Occurrence = Occurrence(path: string, line: string)

  /**
   * A catalog entry. `msgidPlural` is `""` for a singular entry (polib's
   * default, which Python treats as false); `msgstrPlural` maps a plural
   * form index to its translation and holds only the indices the file has.
   */
  datatype Entry = Entry(
    msgid: string,
    msgidPlural: string,
    msgstr: string,
    msgstrPlural: map<nat, string>,
    msgctxt: Option<string>,
    flags: seq<string>,
    obsolete: bool,
    occurrences: seq<Occurrence>)

  const FuzzyFlag: string := "fuzzy"

  /** `if entry.msgid_plural:` */
  predicate IsPlural(e: Entry) {
    e.msgidPlural != ""
  }

  /** `polib.POEntry(msgid=..., msgstr=..., msgctxt=...)`, every other field at polib's default. */
  function NewEntry(msgid: string, msgstr: string, msgctxt: Option<string>): Entry {
    Entry(msgid, "", msgstr, map[], msgctxt, [], false, [])
  }

  /** The position of the first `f` in `flags`, where `list.remove` looks for it. */
  function FirstIndex(flags: seq<string>, f: string): (i: nat)
    requires f in flags
    ensures i < |flags| && flags[i] == f && f !in flags[..i]
  {
    if flags[0] == f then 0
    else
      assert flags == [flags[0]] + flags[1..];
      var k := FirstIndex(flags[1..], f);
      assert flags[..k + 1] == [flags[0]] + flags[1..][..k];
      k + 1
  }

  /** Python's `flags.remove(f)`: drops the first occurrence of `f`, keeping the rest in order. */
  function RemoveFirst(flags: seq<string>, f: string): (r: seq<string>)
    requires f in flags
    ensures var i := FirstIndex(flags, f); r == flags[..i] + flags[i + 1..]
    ensures |r| == |flags| - 1
  {
    assert flags == [flags[0]] + flags[1..];
    if flags[0] == f then
      flags[1..]
    else
      var k := FirstIndex(flags[1..], f);
      assert flags[..k + 1] == [flags[0]] + flags[1..][..k];
      assert flags[k + 2..] == flags[1..][k + 1..];
      [flags[0]] + RemoveFirst(flags[1..], f)
  }

  /** `list.remove` takes away exactly one copy of `f` and nothing else. */
  lemma RemoveFirstCount(flags: seq<string>, f: string)
    requires f in flags
    ensures multiset(RemoveFirst(flags, f)) == multiset(flags) - multiset{f}
  {
    var i := FirstIndex(flags, f);
    assert flags == flags[..i] + [f] + flags[i + 1..];
  }

}
