/**
 * `msgfromxls`: reads translation rows from a spreadsheet and reconciles each
 * of them with the entries of a priority-ordered list of PO catalogs, some of
 * them read-only. A row is matched by (context, key); a match in a writable
 * catalog is brought up to date, left alone or overwritten; an unmatched
 * singular row may be appended to the first writable catalog; at the end every
 * writable catalog is saved unless the run only pretends.
 *
 * Catalog entries are values here: the entry polib hands out by reference is
 * addressed by (catalog position, entry position), and the in-place updates
 * of `MsgStr.set` and `handle_entry` replace the entry at that position of
 * its `PoFile`.
 */
module MsgFromXls {
  import opened Wrappers
  import opened Text
  import opened Catalog
  import opened Sheet

  /** The exceptions that abort an import before anything is saved. */
  datatype ImportError =
    | MalformedFolder   // a locale folder argument without an `rw:` or `ro:` prefix
    | ColumnOutOfRange  // `IndexError` reading a cell of a row
    | UnsupportedCell   // a number where the context, key, plural marker or translation is read
    | FlagNotInteger    // `int()` of the status cell raises
    | NoSuchSlot        // `MsgStr.get()` raises (`AssertionError` or `KeyError`)

  // ---------------------------------------------------------------------------
  // Locale folder arguments: `rw:<path>` or `ro:<path>`

  /** The command-line form of a locale folder. */
  function FolderArgument(readOnly: bool, folder: string): string {
    (if readOnly then "ro" else "rw") + ":" + folder
  }

  /** `rw_ro, folder = folder.split(':', 1)` followed by `assert rw_ro in ['rw', 'ro']`. */
  function SplitFolderArgument(arg: string): Result<(bool, string), ImportError> {
    if ':' !in arg then Failure(MalformedFolder)
    else
      var i := IndexOf(arg, ':');
      var prefix := arg[..i];
      if prefix == "rw" || prefix == "ro" then Success((prefix == "ro", arg[i + 1..]))
      else Failure(MalformedFolder)
  }

  /** Every folder path, colons included, survives the prefix split, and the prefix decides read-only. */
  lemma FolderArgumentRoundTrip(readOnly: bool, folder: string)
    ensures SplitFolderArgument(FolderArgument(readOnly, folder)) == Success((readOnly, folder))
  {
    var arg := FolderArgument(readOnly, folder);
    assert arg[0] != ':' && arg[1] != ':' && arg[2] == ':';
    assert IndexOf(arg, ':') == 2 by {
      assert arg[1..][1..] == arg[2..];
    }
    assert arg[3..] == folder;
  }

  /** A split that succeeds read exactly a prefix, a colon and the path. */
  lemma SplitFolderArgumentInverse(arg: string)
    requires SplitFolderArgument(arg).Success?
    ensures arg == FolderArgument(SplitFolderArgument(arg).value.0, SplitFolderArgument(arg).value.1)
  {
    var i := IndexOf(arg, ':');
    assert arg == arg[..i] + [':'] + arg[i + 1..];
  }

  // ---------------------------------------------------------------------------
  // MsgStr: the singular or the plural translation slot of an entry

  /** `MsgStr(entry, multiplicity)`. */
  datatype MsgStr = MsgStr(entry: Entry, multiplicity: nat)

  /** The source text whose surrounding whitespace a translation of this slot takes over. */
  function SourceText(m: MsgStr): string {
    if IsPlural(m.entry) && m.multiplicity != 0 then m.entry.msgidPlural else m.entry.msgid
  }

  /**
   * `MsgStr.get()`: the plural form `multiplicity` of a plural entry, else
   * `msgstr`; `None` where Python raises (a missing plural index, or a
   * singular entry asked for a multiplicity other than 0).
   */
  function Get(m: MsgStr): (r: Option<string>)
    ensures r.Some? <==> if IsPlural(m.entry) then m.multiplicity in m.entry.msgstrPlural else m.multiplicity == 0
  {
    if IsPlural(m.entry) then
      if m.multiplicity in m.entry.msgstrPlural then Some(m.entry.msgstrPlural[m.multiplicity]) else None
    else if m.multiplicity == 0 then Some(m.entry.msgstr)
    else None
  }

  /**
   * `MsgStr.normalize_whitespace(value)`: the stripped value between the
   * source text's leading and trailing whitespace; `None` stays `None`.
   */
  function NormalizeWhitespace(m: MsgStr, value: Option<string>): (r: Option<string>)
    ensures r.None? <==> value.None?
    ensures r.Some? ==> r.value == LeadingSpace(SourceText(m)) + Strip(value.value) + TrailingSpace(SourceText(m))
    ensures r.Some? ==> Strip(r.value) == Strip(value.value)
    ensures r.Some? ==> LeadingSpace(SourceText(m)) <= r.value
    ensures r.Some? ==> (|TrailingSpace(SourceText(m))| <= |r.value|
      && r.value[|r.value| - |TrailingSpace(SourceText(m))|..] == TrailingSpace(SourceText(m)))
  {
    match value
    case None => None
    case Some(v) =>
      var lead, trail := LeadingSpace(SourceText(m)), TrailingSpace(SourceText(m));
      StripPadded(lead, Strip(v), trail);
      StripIdempotent(v);
      Some(lead + Strip(v) + trail)
  }

  /** Normalizing a normalized value changes nothing. */
  lemma NormalizeWhitespaceIdempotent(m: MsgStr, value: Option<string>)
    ensures NormalizeWhitespace(m, NormalizeWhitespace(m, value)) == NormalizeWhitespace(m, value)
  {
  }

  /** The whitespace before the source text of the example below. */
  lemma ExampleLeading()
    ensures LeadingSpace("  Hello\n") == "  "
  {
    var s := "  Hello\n";
    assert s[0] == ' ' && s[1..] == " Hello\n";
    assert " Hello\n"[0] == ' ' && " Hello\n"[1..] == "Hello\n";
    assert LeadingSpace("Hello\n") == [] by { assert "Hello\n"[0] == 'H'; }
  }

  /** The whitespace after the source text of the example below. */
  lemma ExampleTrailing()
    ensures TrailingSpace("  Hello\n") == "\n"
  {
    var s := "  Hello\n";
    assert s[|s| - 1] == '\n' && s[..|s| - 1] == "  Hello";
    assert TrailingSpace("  Hello") == [] by { assert "  Hello"[6] == 'o'; }
  }

  /** A source text `"  Hello\n"` and a proposed `"bonjour"` give `"  bonjour\n"`. */
  lemma NormalizeWhitespaceExample(e: Entry)
    requires e.msgid == "  Hello\n" && !IsPlural(e)
    ensures NormalizeWhitespace(MsgStr(e, 0), Some("bonjour")) == Some("  bonjour\n")
  {
    ExampleLeading();
    ExampleTrailing();
    assert "  " + Strip("bonjour") + "\n" == "  bonjour\n" by {
      assert Strip("bonjour") == "bonjour";
    }
  }

  /** `MsgStr.set(value)` on the value of an entry: the one slot `get` reads is replaced. */
  function WithMsgStr(e: Entry, multiplicity: nat, value: string): Entry {
    if IsPlural(e) then e.(msgstrPlural := e.msgstrPlural[multiplicity := value]) else e.(msgstr := value)
  }

  /** What `set` stored, `get` returns; nothing but that slot changes. */
  lemma SetThenGet(e: Entry, multiplicity: nat, value: string)
    requires IsPlural(e) || multiplicity == 0
    ensures Get(MsgStr(WithMsgStr(e, multiplicity, value), multiplicity)) == Some(value)
    ensures var e' := WithMsgStr(e, multiplicity, value);
      && e'.msgid == e.msgid && e'.msgidPlural == e.msgidPlural && e'.msgctxt == e.msgctxt
      && e'.flags == e.flags && e'.obsolete == e.obsolete && e'.occurrences == e.occurrences
      && (IsPlural(e) ==> (e'.msgstr == e.msgstr && e'.msgstrPlural.Keys == e.msgstrPlural.Keys + {multiplicity}
           && forall k :: k in e.msgstrPlural && k != multiplicity ==> e'.msgstrPlural[k] == e.msgstrPlural[k]))
      && (!IsPlural(e) ==> e'.msgstrPlural == e.msgstrPlural)
  {
  }

  // ---------------------------------------------------------------------------
  // Catalogs

  /** A `(read_only, catalog)` pair as a value: the in-memory state of one catalog. */
  datatype Store = Store(readOnly: bool, entries: seq<Entry>)

  /** A loaded PO file: its entries in file order and what its file on disk holds. */
  class PoFile {
    var entries: seq<Entry>
    var disk: seq<Entry>

    constructor (entries: seq<Entry>)
      ensures this.entries == entries && disk == entries
    {
      this.entries := entries;
      disk := entries;
    }

    /** `po.save()`. */
    method Save()
      modifies this
      ensures entries == old(entries) && disk == entries
    {
      disk := entries;
    }

    /** `po.append(entry)`. */
    method Append(e: Entry)
      modifies this
      ensures entries == old(entries) + [e] && disk == old(disk)
    {
      entries := entries + [e];
    }

    /**
     * `handle_entry(entry, msgstr, ...)` for the entry at position `i`, whose
     * `translated()` is `translated`: the entry is replaced by what
     * `Reconcile` makes of it, and the outcome is reported.
     */
    method HandleEntry(i: nat, multiplicity: nat, trans: Option<string>, fuzzy: bool, translated: bool)
      returns (r: Result<Outcome, ImportError>)
      requires i < |entries|
      modifies this
      ensures disk == old(disk)
      ensures match Reconcile(old(entries)[i], multiplicity, trans, fuzzy, translated)
        case Success((e, outcome)) => r == Success(outcome) && entries == old(entries)[i := e]
        case Failure(err) => r == Failure(err) && entries == old(entries)
    {
      var e := entries[i];
      var msgstr := MsgStr(e, multiplicity);
      var transNorm := NormalizeWhitespace(msgstr, trans);
      var current := Get(msgstr);
      if current.None? {
        return Failure(NoSuchSlot);
      }
      if trans.None? || trans.value == "" || Strip(trans.value) == Strip(current.value) {
        var slot := if Strip(current.value) != "" then NormalizeWhitespace(msgstr, current).value else "";
        e := DropFuzzy(WithMsgStr(e, multiplicity, slot), fuzzy).(obsolete := false);
        r := Success(UpToDate);
      } else if !translated {
        e := DropFuzzy(WithMsgStr(e, multiplicity, transNorm.value), fuzzy);
        r := Success(Untranslated);
      } else {
        e := WithMsgStr(e, multiplicity, trans.value);
        r := Success(Updated(current.value, transNorm));
      }
      entries := entries[i := e];
    }
  }

  /** The catalog objects of a `(read_only, po)` list. */
  ghost function Files(pofiles: seq<(bool, PoFile)>): set<PoFile> {
    set j | 0 <= j < |pofiles| :: pofiles[j].1
  }

  /** Each catalog was loaded on its own, so no object appears twice. */
  predicate DistinctFiles(pofiles: seq<(bool, PoFile)>) {
    forall a, b :: 0 <= a < b < |pofiles| ==> pofiles[a].1 != pofiles[b].1
  }

  /** The in-memory state of every catalog, in priority order. */
  function Stores(pofiles: seq<(bool, PoFile)>): (r: seq<Store>)
    reads Files(pofiles)
    ensures |r| == |pofiles|
    ensures forall j :: 0 <= j < |r| ==> r[j] == Store(pofiles[j].0, pofiles[j].1.entries)
  {
    seq(|pofiles|, j requires 0 <= j < |pofiles| reads Files(pofiles) => Store(pofiles[j].0, pofiles[j].1.entries))
  }

  // ---------------------------------------------------------------------------
  // find and find_entry

  /**
   * The test `find` applies to an entry: not obsolete unless obsolete entries
   * are included, the stripped `msgid` (or `msgid_plural`) equal to the key,
   * and the same context.
   */
  predicate Matches(e: Entry, st: Option<string>, byPlural: bool, includeObsolete: bool, ctx: Option<string>) {
    && (includeObsolete || !e.obsolete)
    && st == Some(Strip(if byPlural then e.msgidPlural else e.msgid))
    && e.msgctxt == ctx
  }

  /** The position of the first entry, from `from` on, that `Matches`. */
  function FirstMatch(entries: seq<Entry>, st: Option<string>, byPlural: bool, includeObsolete: bool,
                      ctx: Option<string>, from: nat): (r: Option<nat>)
    requires from <= |entries|
    ensures r.Some? ==> from <= r.value < |entries| && Matches(entries[r.value], st, byPlural, includeObsolete, ctx)
    ensures r.Some? ==> forall k :: from <= k < r.value ==> !Matches(entries[k], st, byPlural, includeObsolete, ctx)
    ensures r.None? ==> forall k :: from <= k < |entries| ==> !Matches(entries[k], st, byPlural, includeObsolete, ctx)
    decreases |entries| - from
  {
    if from == |entries| then None
    else if Matches(entries[from], st, byPlural, includeObsolete, ctx) then Some(from)
    else FirstMatch(entries, st, byPlural, includeObsolete, ctx, from + 1)
  }

  /** `find(po, st, by=..., include_obsolete_entries=..., msgctxt=ctx)`: the position of the entry it returns. */
  method Find(entries: seq<Entry>, st: Option<string>, byPlural: bool, includeObsolete: bool, ctx: Option<string>)
    returns (r: Option<nat>)
    ensures r == FirstMatch(entries, st, byPlural, includeObsolete, ctx, 0)
  {
    var k := 0;
    while k < |entries|
      invariant 0 <= k <= |entries|
      invariant FirstMatch(entries, st, byPlural, includeObsolete, ctx, 0) == FirstMatch(entries, st, byPlural, includeObsolete, ctx, k)
    {
      if Matches(entries[k], st, byPlural, includeObsolete, ctx) {
        return Some(k);
      }
      k := k + 1;
    }
    return None;
  }

  /** The first catalog, from `from` on, in which `find` succeeds, with the entry it finds there. */
  function FirstHit(stores: seq<Store>, st: Option<string>, byPlural: bool, includeObsolete: bool,
                    ctx: Option<string>, from: nat): (r: Option<(nat, nat)>)
    requires from <= |stores|
    ensures r.Some? ==> (from <= r.value.0 < |stores|
      && FirstMatch(stores[r.value.0].entries, st, byPlural, includeObsolete, ctx, 0) == Some(r.value.1)
      && forall j :: from <= j < r.value.0 ==> FirstMatch(stores[j].entries, st, byPlural, includeObsolete, ctx, 0).None?)
    ensures r.None? ==> forall j :: from <= j < |stores| ==> FirstMatch(stores[j].entries, st, byPlural, includeObsolete, ctx, 0).None?
    decreases |stores| - from
  {
    if from == |stores| then None
    else match FirstMatch(stores[from].entries, st, byPlural, includeObsolete, ctx, 0)
      case Some(i) => Some((from, i))
      case None => FirstHit(stores, st, byPlural, includeObsolete, ctx, from + 1)
  }

  /** The two passes of `find_entry`: every catalog for a current entry, then every catalog with obsolete ones. */
  function Search(stores: seq<Store>, st: Option<string>, byPlural: bool, ctx: Option<string>): Option<(nat, nat)> {
    var current := FirstHit(stores, st, byPlural, false, ctx, 0);
    if current.Some? then current else FirstHit(stores, st, byPlural, true, ctx, 0)
  }

  /** Some catalog holds an entry that `Matches`. */
  ghost predicate AnyMatch(stores: seq<Store>, st: Option<string>, byPlural: bool, includeObsolete: bool, ctx: Option<string>) {
    exists j, i :: 0 <= j < |stores| && 0 <= i < |stores[j].entries| && Matches(stores[j].entries[i], st, byPlural, includeObsolete, ctx)
  }

  lemma FirstHitFindsAny(stores: seq<Store>, st: Option<string>, byPlural: bool, includeObsolete: bool, ctx: Option<string>)
    ensures FirstHit(stores, st, byPlural, includeObsolete, ctx, 0).Some? <==> AnyMatch(stores, st, byPlural, includeObsolete, ctx)
  {
    var h := FirstHit(stores, st, byPlural, includeObsolete, ctx, 0);
    if h.Some? {
      assert Matches(stores[h.value.0].entries[h.value.1], st, byPlural, includeObsolete, ctx);
    } else if AnyMatch(stores, st, byPlural, includeObsolete, ctx) {
      var j, i :| 0 <= j < |stores| && 0 <= i < |stores[j].entries| && Matches(stores[j].entries[i], st, byPlural, includeObsolete, ctx);
      assert false;
    }
  }

  /**
   * What `find_entry` finds: nothing exactly when no catalog has a match;
   * otherwise a matching entry, which is current whenever any catalog has a
   * current match, in the first catalog holding such a match, and the first
   * such entry of that catalog. When only obsolete entries match, the second
   * pass likewise finds the first match of the first catalog holding one.
   */
  lemma SearchFindsFirst(stores: seq<Store>, st: Option<string>, byPlural: bool, ctx: Option<string>)
    ensures Search(stores, st, byPlural, ctx).None? <==> !AnyMatch(stores, st, byPlural, true, ctx)
    ensures Search(stores, st, byPlural, ctx).Some? ==>
      var (j, i) := Search(stores, st, byPlural, ctx).value;
      j < |stores| && i < |stores[j].entries| && Matches(stores[j].entries[i], st, byPlural, true, ctx)
    ensures AnyMatch(stores, st, byPlural, false, ctx) ==>
      Search(stores, st, byPlural, ctx).Some? &&
      var (j, i) := Search(stores, st, byPlural, ctx).value;
      && !stores[j].entries[i].obsolete
      && (forall j' :: 0 <= j' < j ==> forall i' :: 0 <= i' < |stores[j'].entries| ==> !Matches(stores[j'].entries[i'], st, byPlural, false, ctx))
      && (forall i' :: 0 <= i' < i ==> !Matches(stores[j].entries[i'], st, byPlural, false, ctx))
    ensures !AnyMatch(stores, st, byPlural, false, ctx) && AnyMatch(stores, st, byPlural, true, ctx) ==>
      Search(stores, st, byPlural, ctx).Some? &&
      var (j, i) := Search(stores, st, byPlural, ctx).value;
      && (forall j' :: 0 <= j' < j ==> forall i' :: 0 <= i' < |stores[j'].entries| ==> !Matches(stores[j'].entries[i'], st, byPlural, true, ctx))
      && (forall i' :: 0 <= i' < i ==> !Matches(stores[j].entries[i'], st, byPlural, true, ctx))
  {
    SearchFindsAny(stores, st, byPlural, ctx);
    FirstHitFindsAny(stores, st, byPlural, false, ctx);
    if !AnyMatch(stores, st, byPlural, false, ctx) {
      FirstHitFindsAny(stores, st, byPlural, true, ctx);
    }
  }

  /** Both passes together find something exactly when some entry, current or obsolete, matches. */
  lemma SearchFindsAny(stores: seq<Store>, st: Option<string>, byPlural: bool, ctx: Option<string>)
    ensures Search(stores, st, byPlural, ctx).None? <==> !AnyMatch(stores, st, byPlural, true, ctx)
    ensures Search(stores, st, byPlural, ctx).Some? ==>
      var (j, i) := Search(stores, st, byPlural, ctx).value;
      j < |stores| && i < |stores[j].entries| && Matches(stores[j].entries[i], st, byPlural, true, ctx)
  {
    FirstHitFindsAny(stores, st, byPlural, false, ctx);
    FirstHitFindsAny(stores, st, byPlural, true, ctx);
    if AnyMatch(stores, st, byPlural, false, ctx) {
      var j, i :| 0 <= j < |stores| && 0 <= i < |stores[j].entries| && Matches(stores[j].entries[i], st, byPlural, false, ctx);
      assert Matches(stores[j].entries[i], st, byPlural, true, ctx);
    }
    var h := Search(stores, st, byPlural, ctx);
    if h.Some? {
      assert Matches(stores[h.value.0].entries[h.value.1], st, byPlural, true, ctx);
    }
  }


  /** What `find_entry` reports. */
  datatype Lookup =
    | NotFound                                          // `(None, None, False)`
    | ReadOnlyMatch(conflict: bool)                     // `(None, None, True)`; `conflict` when the row disagrees
    | WritableMatch(file: nat, index: nat, multiplicity: nat)

  /**
   * `find_entry(pofiles, ctx, key, plr, trans)` on the catalogs' values. A
   * row whose plural marker is `'P'` is looked up by `msgid_plural` and
   * addresses plural form 1.
   */
  function Locate(stores: seq<Store>, ctx: Option<string>, key: Option<string>, plr: Option<string>,
                  trans: Option<string>): (r: Result<Lookup, ImportError>)
    ensures r.Success? && r.value.WritableMatch? ==>
      r.value.file < |stores| && r.value.index < |stores[r.value.file].entries| && !stores[r.value.file].readOnly
  {
    var byPlural := plr == Some("P");
    match Search(stores, key, byPlural, ctx)
    case None => Success(NotFound)
    case Some((j, i)) =>
      var m := if byPlural then 1 else 0;
      if stores[j].readOnly then
        match Get(MsgStr(stores[j].entries[i], m))
        case None => Failure(NoSuchSlot)
        case Some(current) => Success(ReadOnlyMatch(trans != Some(current)))
      else Success(WritableMatch(j, i, m))
  }

  /**
   * `find_entry` reports nothing exactly when no catalog has a match; a
   * writable match is a matching entry, current whenever some catalog has a
   * current match, in plural form 1 for a `'P'` row and in the singular
   * slot otherwise; a read-only match reports whether the row's translation
   * differs from the catalog's.
   */
  lemma LocateSpec(stores: seq<Store>, ctx: Option<string>, key: Option<string>, plr: Option<string>, trans: Option<string>)
    ensures var r := Locate(stores, ctx, key, plr, trans);
      r == Success(NotFound) <==> !AnyMatch(stores, key, plr == Some("P"), true, ctx)
    ensures var r := Locate(stores, ctx, key, plr, trans);
      r.Success? && r.value.WritableMatch? ==>
      var (j, i, m) := (r.value.file, r.value.index, r.value.multiplicity);
      && Matches(stores[j].entries[i], key, plr == Some("P"), true, ctx)
      && m == (if plr == Some("P") then 1 else 0)
      && (AnyMatch(stores, key, plr == Some("P"), false, ctx) ==> !stores[j].entries[i].obsolete)
    ensures var r := Locate(stores, ctx, key, plr, trans);
      r.Success? && r.value.ReadOnlyMatch? ==>
      && AnyMatch(stores, key, plr == Some("P"), true, ctx)
      && var (j, i) := Search(stores, key, plr == Some("P"), ctx).value;
      && stores[j].readOnly
      && r.value.conflict == (trans != Get(MsgStr(stores[j].entries[i], if plr == Some("P") then 1 else 0)))
  {
    SearchFindsFirst(stores, key, plr == Some("P"), ctx);
  }

  /** One pass of `find_entry` over the catalogs, in priority order. */
  method ScanCatalogs(stores: seq<Store>, st: Option<string>, byPlural: bool, includeObsolete: bool,
                      ctx: Option<string>) returns (hit: Option<(nat, nat)>)
    ensures hit == FirstHit(stores, st, byPlural, includeObsolete, ctx, 0)
  {
    var j := 0;
    while j < |stores|
      invariant 0 <= j <= |stores|
      invariant FirstHit(stores, st, byPlural, includeObsolete, ctx, 0) == FirstHit(stores, st, byPlural, includeObsolete, ctx, j)
    {
      var i := Find(stores[j].entries, st, byPlural, includeObsolete, ctx);
      if i.Some? {
        return Some((j, i.value));
      }
      j := j + 1;
    }
    return None;
  }

  /** `find_entry(pofiles, ctx, key, plr, trans)`, given the catalogs' current state. */
  method FindEntry(stores: seq<Store>, ctx: Option<string>, key: Option<string>, plr: Option<string>,
                   trans: Option<string>) returns (r: Result<Lookup, ImportError>)
    ensures r == Locate(stores, ctx, key, plr, trans)
  {
    var byPlural := plr == Some("P");
    var hit := ScanCatalogs(stores, key, byPlural, false, ctx);
    if hit.None? {
      hit := ScanCatalogs(stores, key, byPlural, true, ctx);
    }
    if hit.None? {
      return Success(NotFound);
    }
    var (j, i) := hit.value;
    var m := if byPlural then 1 else 0;
    if stores[j].readOnly {
      var current := Get(MsgStr(stores[j].entries[i], m));
      if current.None? {
        return Failure(NoSuchSlot);
      }
      return Success(ReadOnlyMatch(trans != Some(current.value)));
    }
    return Success(WritableMatch(j, i, m));
  }

  // ---------------------------------------------------------------------------
  // handle_entry

  /** What `handle_entry` reports. */
  datatype Outcome =
    | UpToDate
    | Untranslated
    | Updated(before: string, after: Option<string>)

  /** `entry.flags.remove('fuzzy')`, done when the entry is fuzzy and the row is not. */
  function DropFuzzy(e: Entry, rowFuzzy: bool): Entry {
    if FuzzyFlag in e.flags && !rowFuzzy then e.(flags := RemoveFirst(e.flags, FuzzyFlag)) else e
  }

  /**
   * `handle_entry` on an entry's value, with `translated` the entry's
   * `translated()`: the entry afterwards and the outcome reported.
   */
  function Reconcile(e: Entry, multiplicity: nat, trans: Option<string>, fuzzy: bool, translated: bool)
    : Result<(Entry, Outcome), ImportError>
  {
    var msgstr := MsgStr(e, multiplicity);
    var transNorm := NormalizeWhitespace(msgstr, trans);
    match Get(msgstr)
    case None => Failure(NoSuchSlot)
    case Some(current) =>
      if trans.None? || trans.value == "" || Strip(trans.value) == Strip(current) then
        var slot := if Strip(current) != "" then NormalizeWhitespace(msgstr, Some(current)).value else "";
        Success((DropFuzzy(WithMsgStr(e, multiplicity, slot), fuzzy).(obsolete := false), UpToDate))
      else if !translated then
        Success((DropFuzzy(WithMsgStr(e, multiplicity, transNorm.value), fuzzy), Untranslated))
      else
        Success((WithMsgStr(e, multiplicity, trans.value), Updated(current, transNorm)))
  }

  /** `handle_entry` raises exactly when `MsgStr.get()` does, and then changes nothing. */
  lemma ReconcileFails(e: Entry, multiplicity: nat, trans: Option<string>, fuzzy: bool, translated: bool)
    ensures Reconcile(e, multiplicity, trans, fuzzy, translated).Failure? <==> Get(MsgStr(e, multiplicity)).None?
  {
  }

  /**
   * Already up to date (the row is empty or agrees once both are stripped):
   * the slot is re-padded with the source's whitespace, or cleared when
   * blank; `fuzzy` goes unless the row is fuzzy; the entry is no longer obsolete.
   */
  lemma ReconcileUpToDate(e: Entry, multiplicity: nat, trans: Option<string>, fuzzy: bool, translated: bool)
    requires Get(MsgStr(e, multiplicity)).Some?
    requires var current := Get(MsgStr(e, multiplicity)).value;
      trans.None? || trans.value == "" || Strip(trans.value) == Strip(current)
    ensures var current := Get(MsgStr(e, multiplicity)).value;
      var source := SourceText(MsgStr(e, multiplicity));
      var r := Reconcile(e, multiplicity, trans, fuzzy, translated);
      && r.Success? && r.value.1 == UpToDate
      && Get(MsgStr(r.value.0, multiplicity)) == Some(
           if Strip(current) == "" then "" else LeadingSpace(source) + Strip(current) + TrailingSpace(source))
      && r.value.0.flags == (if FuzzyFlag in e.flags && !fuzzy then RemoveFirst(e.flags, FuzzyFlag) else e.flags)
      && !r.value.0.obsolete
  {
    var m := MsgStr(e, multiplicity);
    var current := Get(m).value;
    var slot := if Strip(current) != "" then NormalizeWhitespace(m, Some(current)).value else "";
    assert slot == if Strip(current) == "" then "" else LeadingSpace(SourceText(m)) + Strip(current) + TrailingSpace(SourceText(m));
    var e2 := DropFuzzy(WithMsgStr(e, multiplicity, slot), fuzzy).(obsolete := false);
    assert Reconcile(e, multiplicity, trans, fuzzy, translated) == Success((e2, UpToDate));
    SetKeepsFlags(e, multiplicity, slot, fuzzy);
  }

  /**
   * Untranslated: the slot takes the row's translation with the source's
   * whitespace; `fuzzy` goes unless the row is fuzzy; `obsolete` is kept.
   */
  lemma ReconcileUntranslated(e: Entry, multiplicity: nat, t: string, fuzzy: bool)
    requires Get(MsgStr(e, multiplicity)).Some?
    requires t != "" && Strip(t) != Strip(Get(MsgStr(e, multiplicity)).value)
    ensures var source := SourceText(MsgStr(e, multiplicity));
      var r := Reconcile(e, multiplicity, Some(t), fuzzy, false);
      && r.Success? && r.value.1 == Untranslated
      && Get(MsgStr(r.value.0, multiplicity)) == Some(LeadingSpace(source) + Strip(t) + TrailingSpace(source))
      && r.value.0.flags == (if FuzzyFlag in e.flags && !fuzzy then RemoveFirst(e.flags, FuzzyFlag) else e.flags)
      && r.value.0.obsolete == e.obsolete
  {
    var m := MsgStr(e, multiplicity);
    var slot := NormalizeWhitespace(m, Some(t)).value;
    assert slot == LeadingSpace(SourceText(m)) + Strip(t) + TrailingSpace(SourceText(m));
    var e2 := DropFuzzy(WithMsgStr(e, multiplicity, slot), fuzzy);
    assert Reconcile(e, multiplicity, Some(t), fuzzy, false) == Success((e2, Untranslated));
    SetKeepsFlags(e, multiplicity, slot, fuzzy);
  }

  /** Setting a slot and then dropping `fuzzy` or clearing `obsolete` leaves the slot set. */
  lemma SetKeepsFlags(e: Entry, multiplicity: nat, slot: string, fuzzy: bool)
    requires IsPlural(e) || multiplicity == 0
    ensures var e2 := DropFuzzy(WithMsgStr(e, multiplicity, slot), fuzzy);
      && Get(MsgStr(e2, multiplicity)) == Some(slot)
      && Get(MsgStr(e2.(obsolete := false), multiplicity)) == Some(slot)
      && e2.flags == (if FuzzyFlag in e.flags && !fuzzy then RemoveFirst(e.flags, FuzzyFlag) else e.flags)
      && e2.obsolete == e.obsolete
  {
    var e1 := WithMsgStr(e, multiplicity, slot);
    SetThenGet(e, multiplicity, slot);
    var e2 := DropFuzzy(e1, fuzzy);
    assert e2.msgstr == e1.msgstr && e2.msgstrPlural == e1.msgstrPlural && e2.msgidPlural == e1.msgidPlural;
  }

  /**
   * Changed: the slot takes the row's translation exactly as the cell holds
   * it, and nothing else about the entry changes; the report carries the
   * old value and the whitespace-normalized new one.
   */
  lemma ReconcileChanged(e: Entry, multiplicity: nat, t: string, fuzzy: bool)
    requires Get(MsgStr(e, multiplicity)).Some?
    requires t != "" && Strip(t) != Strip(Get(MsgStr(e, multiplicity)).value)
    ensures var r := Reconcile(e, multiplicity, Some(t), fuzzy, true);
      && r == Success((WithMsgStr(e, multiplicity, t),
                       Updated(Get(MsgStr(e, multiplicity)).value, NormalizeWhitespace(MsgStr(e, multiplicity), Some(t)))))
      && Get(MsgStr(r.value.0, multiplicity)) == Some(t)
  {
    SetThenGet(e, multiplicity, t);
  }

  /**
   * Whatever the outcome, after a non-blank row is reconciled the slot holds
   * the row's translation up to surrounding whitespace, and the entry keeps
   * its identity (msgid, plural msgid, context and occurrences).
   */
  lemma ReconcileAdoptsRow(e: Entry, multiplicity: nat, t: string, fuzzy: bool, translated: bool)
    requires Reconcile(e, multiplicity, Some(t), fuzzy, translated).Success?
    requires Strip(t) != ""
    ensures var e' := Reconcile(e, multiplicity, Some(t), fuzzy, translated).value.0;
      && Get(MsgStr(e', multiplicity)).Some?
      && Strip(Get(MsgStr(e', multiplicity)).value) == Strip(t)
      && e'.msgid == e.msgid && e'.msgidPlural == e.msgidPlural
      && e'.msgctxt == e.msgctxt && e'.occurrences == e.occurrences
  {
    var m := MsgStr(e, multiplicity);
    var current := Get(m).value;
    var source := SourceText(m);
    if Strip(t) == Strip(current) {
      ReconcileUpToDate(e, multiplicity, Some(t), fuzzy, translated);
      StripPadded(LeadingSpace(source), Strip(current), TrailingSpace(source));
    } else if !translated {
      ReconcileUntranslated(e, multiplicity, t, fuzzy);
      StripPadded(LeadingSpace(source), Strip(t), TrailingSpace(source));
    } else {
      ReconcileChanged(e, multiplicity, t, fuzzy);
    }
  }

  // ---------------------------------------------------------------------------
  // The row loop of `main`

  /** The command-line column options, 1-based as the user gives them. */
  datatype Columns = Columns(ctx: int, key: int, trans: int)

  /** The values `main` reads from one row. */
  datatype Row = Row(ctx: Option<string>, key: Option<string>, plural: Option<string>, trans: Option<string>, flag: int)

  /** A cell of a text column as a Python value. */
  function TextCell(c: Option<Cell>): Result<Option<string>, ImportError> {
    match c
    case None => Failure(ColumnOutOfRange)
    case Some(Empty) => Success(None)
    case Some(Str(s)) => Success(Some(s))
    case Some(Num(_)) => Failure(UnsupportedCell)
  }

  /**
   * Python's `int(s)` for a string: ASCII digits after an optional sign,
   * with whitespace allowed around them; `None` where it raises `ValueError`.
   */
  function IntValue(s: string): Option<int> {
    var t := Strip(s);
    if t != [] && (t[0] == '+' || t[0] == '-') && IsDecimal(t[1..]) then
      var v: int := DecimalValue(t[1..]);
      Some(if t[0] == '-' then -v else v)
    else if IsDecimal(t) then Some(DecimalValue(t))
    else None
  }

  /** `int()` reads back what `str()` writes, whatever whitespace surrounds it. */
  lemma IntValueOfIntString(l: string, n: int, r: string)
    requires AllSpace(l) && AllSpace(r)
    ensures IntValue(l + IntString(n) + r) == Some(n)
  {
    StripPadded(l, IntString(n), r);
    var m: nat := if n < 0 then -n else n;
    DecimalRoundTrip(m);
    if n < 0 {
      assert IntString(n)[1..] == DecimalString(m);
    }
  }

  /** An explicit plus sign is accepted too. */
  lemma IntValueOfPlus(l: string, n: nat, r: string)
    requires AllSpace(l) && AllSpace(r)
    ensures IntValue(l + "+" + DecimalString(n) + r) == Some(n)
  {
    var t := "+" + DecimalString(n);
    assert IsDigit(t[|t| - 1]);
    assert l + "+" + DecimalString(n) + r == l + t + r;
    StripPadded(l, t, r);
    assert t[1..] == DecimalString(n);
    DecimalRoundTrip(n);
  }

  /** Whitespace alone, or a sign alone, is no number. */
  lemma IntValueRejects(l: string, sign: string, r: string)
    requires AllSpace(l) && AllSpace(r) && (sign == "" || sign == "+" || sign == "-")
    ensures IntValue(l + sign + r) == None
  {
    if sign == "" {
      assert l + sign + r == l + [] + r;
      StripPadded(l, [], r);
    } else {
      StripPadded(l, sign, r);
    }
  }

  /** `int(cell.value)` for the status cell. */
  function FlagCell(c: Option<Cell>): Result<int, ImportError> {
    match c
    case None => Failure(ColumnOutOfRange)
    case Some(Num(n)) => Success(n)
    case Some(Str(s)) =>
      (match IntValue(s)
       case Some(n) => Success(n)
       case None => Failure(FlagNotInteger))
    case Some(Empty) => Failure(FlagNotInteger)
  }

  /**
   * Lines 109-116 of `main`: context (empty becomes `None`), key, the plural
   * marker right of the key, the translation and, left of it, the status.
   */
  function ReadRow(cells: seq<Cell>, cols: Columns): Result<Row, ImportError> {
    var c, k, t := cols.ctx - 1, cols.key - 1, cols.trans - 1;
    match TextCell(PyIndex(cells, c))
    case Failure(e) => Failure(e)
    case Success(ctx) =>
      match TextCell(PyIndex(cells, k))
      case Failure(e) => Failure(e)
      case Success(key) =>
        match TextCell(PyIndex(cells, k + 1))
        case Failure(e) => Failure(e)
        case Success(plr) =>
          match TextCell(PyIndex(cells, t))
          case Failure(e) => Failure(e)
          case Success(trans) =>
            match FlagCell(PyIndex(cells, t - 1))
            case Failure(e) => Failure(e)
            case Success(flag) => Success(Row(if ctx == Some("") then None else ctx, key, plr, trans, flag))
  }

  /** The position of the first writable catalog. */
  function FirstWritable(stores: seq<Store>, from: nat): (r: Option<nat>)
    requires from <= |stores|
    ensures r.Some? ==> (from <= r.value < |stores| && !stores[r.value].readOnly
      && forall j :: from <= j < r.value ==> stores[j].readOnly)
    ensures r.None? ==> forall j :: from <= j < |stores| ==> stores[j].readOnly
    decreases |stores| - from
  {
    if from == |stores| then None
    else if !stores[from].readOnly then Some(from)
    else FirstWritable(stores, from + 1)
  }

  /** Appends `e` to the first writable catalog, if there is one. */
  function AppendToFirstWritable(stores: seq<Store>, e: Entry): seq<Store> {
    match FirstWritable(stores, 0)
    case None => stores
    case Some(j) => stores[j := stores[j].(entries := stores[j].entries + [e])]
  }

  /**
   * The entry appended for an unmatched row, `polib.POEntry(msgid=key or '',
   * msgstr=trans or '', msgctx=ctx or None)`, with the context the keyword
   * was evidently meant to set (see `NewRowEntryAsWritten`).
   */
  function NewRowEntry(row: Row): Entry {
    NewEntry(if row.key.Some? then row.key.value else "", if row.trans.Some? then row.trans.value else "", row.ctx)
  }

  /**
   * The entry line 128 builds as written: polib takes the context from a
   * `msgctxt` keyword and ignores the misspelt `msgctx`, so the entry has no context.
   */
  function NewRowEntryAsWritten(row: Row): Entry {
    NewEntry(if row.key.Some? then row.key.value else "", if row.trans.Some? then row.trans.value else "", None)
  }

  /** A writable match: the entry at `(j, i)` replaced by what `handle_entry` makes of it. */
  function ReconcileAt(stores: seq<Store>, j: nat, i: nat, multiplicity: nat, row: Row, translated: Entry -> bool)
    : Result<seq<Store>, ImportError>
    requires j < |stores| && i < |stores[j].entries|
  {
    var e := stores[j].entries[i];
    match Reconcile(e, multiplicity, row.trans, row.flag == 1, translated(e))
    case Failure(err) => Failure(err)
    case Success((e', _)) => Success(stores[j := stores[j].(entries := stores[j].entries[i := e'])])
  }

  /**
   * What a row does once `find_entry` has answered: reconcile a writable
   * match. Otherwise `entry` is `None` (line 123), whether nothing matched or
   * only a read-only entry did, and a singular row is appended to the first
   * writable catalog when the user adds it (`--add`, or `confirm` answering
   * the prompt).
   */
  function ApplyLookup(stores: seq<Store>, row: Row, found: Lookup, add: bool, confirm: Row -> bool, translated: Entry -> bool)
    : Result<seq<Store>, ImportError>
    requires found.WritableMatch? ==> found.file < |stores| && found.index < |stores[found.file].entries|
  {
    match found
    case WritableMatch(j, i, m) => ReconcileAt(stores, j, i, m, row, translated)
    case _ =>
      if row.plural == Some("s") && (add || confirm(row)) then Success(AppendToFirstWritable(stores, NewRowEntry(row)))
      else Success(stores)
  }

  /** One pass of the row loop: a row without key and translation is skipped, any other is looked up. */
  function ProcessRow(stores: seq<Store>, row: Row, add: bool, confirm: Row -> bool, translated: Entry -> bool)
    : Result<seq<Store>, ImportError>
  {
    if row.key.None? && row.trans.None? then Success(stores)
    else
      match Locate(stores, row.ctx, row.key, row.plural, row.trans)
      case Failure(err) => Failure(err)
      case Success(found) => ApplyLookup(stores, row, found, add, confirm, translated)
  }

  /** The row loop over the data rows of the sheet; the first exception ends it. */
  function ImportRows(stores: seq<Store>, rows: seq<seq<Cell>>, cols: Columns, add: bool, confirm: Row -> bool,
                      translated: Entry -> bool): Result<seq<Store>, ImportError>
    decreases |rows|
  {
    if rows == [] then Success(stores)
    else
      match ReadRow(rows[0], cols)
      case Failure(err) => Failure(err)
      case Success(row) =>
        match ProcessRow(stores, row, add, confirm, translated)
        case Failure(err) => Failure(err)
        case Success(next) => ImportRows(next, rows[1..], cols, add, confirm, translated)
  }

  /** Every catalog keeps its read-only mark, and a read-only catalog keeps its entries. */
  ghost predicate ReadOnlyKept(before: seq<Store>, after: seq<Store>) {
    && |after| == |before|
    && forall j :: 0 <= j < |before| ==> after[j].readOnly == before[j].readOnly && (before[j].readOnly ==> after[j] == before[j])
  }

  lemma ProcessRowKeepsReadOnly(stores: seq<Store>, row: Row, add: bool, confirm: Row -> bool, translated: Entry -> bool)
    requires ProcessRow(stores, row, add, confirm, translated).Success?
    ensures ReadOnlyKept(stores, ProcessRow(stores, row, add, confirm, translated).value)
  {
  }

  /** Read-only catalogs are never changed by an import, however it ends. */
  lemma {:induction false} ImportKeepsReadOnly(stores: seq<Store>, rows: seq<seq<Cell>>, cols: Columns, add: bool,
                                               confirm: Row -> bool, translated: Entry -> bool)
    requires ImportRows(stores, rows, cols, add, confirm, translated).Success?
    ensures ReadOnlyKept(stores, ImportRows(stores, rows, cols, add, confirm, translated).value)
    decreases |rows|
  {
    if rows != [] {
      var row := ReadRow(rows[0], cols).value;
      var next := ProcessRow(stores, row, add, confirm, translated).value;
      ProcessRowKeepsReadOnly(stores, row, add, confirm, translated);
      ImportKeepsReadOnly(next, rows[1..], cols, add, confirm, translated);
    }
  }

  /** A row without key and translation changes nothing. */
  lemma EmptyRowIgnored(stores: seq<Store>, row: Row, add: bool, confirm: Row -> bool, translated: Entry -> bool)
    requires row.key.None? && row.trans.None?
    ensures ProcessRow(stores, row, add, confirm, translated) == Success(stores)
  {
  }

  /**
   * A row that matches nothing and whose marker is not `'s'` (a plural row)
   * is never added: no catalog gains an entry.
   */
  lemma UnmatchedPluralRowNotAdded(stores: seq<Store>, row: Row, add: bool, confirm: Row -> bool, translated: Entry -> bool)
    requires row.plural != Some("s")
    requires Locate(stores, row.ctx, row.key, row.plural, row.trans) == Success(NotFound)
    ensures ProcessRow(stores, row, add, confirm, translated) == Success(stores)
  {
  }

  /**
   * No row ever changes how many entries a catalog has, except that a
   * singular row without a writable match, which the user adds, appends one
   * entry to the first writable catalog.
   */
  lemma ProcessRowEntryCounts(stores: seq<Store>, row: Row, add: bool, confirm: Row -> bool, translated: Entry -> bool)
    requires ProcessRow(stores, row, add, confirm, translated).Success?
    ensures var after := ProcessRow(stores, row, add, confirm, translated).value;
      forall j :: 0 <= j < |stores| ==>
        |after[j].entries| == |stores[j].entries| + (
          if row.plural == Some("s") && (add || confirm(row)) && FirstWritable(stores, 0) == Some(j)
             && !(row.key.None? && row.trans.None?)
             && Locate(stores, row.ctx, row.key, row.plural, row.trans).Success?
             && !Locate(stores, row.ctx, row.key, row.plural, row.trans).value.WritableMatch?
          then 1 else 0)
  {
  }

  /** Appending `e` to catalog `j` of catalogs with no match leaves the new entry as the only match. */
  lemma OnlyMatchIsAppended(stores: seq<Store>, j: nat, e: Entry, st: Option<string>, byPlural: bool, ctx: Option<string>)
    requires j < |stores| && !AnyMatch(stores, st, byPlural, true, ctx)
    ensures var after := stores[j := stores[j].(entries := stores[j].entries + [e])];
      forall j', i' :: 0 <= j' < |after| && 0 <= i' < |after[j'].entries| && Matches(after[j'].entries[i'], st, byPlural, true, ctx)
        ==> j' == j && i' == |stores[j].entries|
  {
    var after := stores[j := stores[j].(entries := stores[j].entries + [e])];
    forall j', i' | 0 <= j' < |after| && 0 <= i' < |after[j'].entries| && (j' != j || i' < |stores[j].entries|)
      ensures !Matches(after[j'].entries[i'], st, byPlural, true, ctx)
    {
      assert after[j'].entries[i'] == stores[j'].entries[i'];
    }
  }

  /** After the append, `find_entry` on the same row finds the appended entry in its writable catalog. */
  lemma AppendedIsLocated(stores: seq<Store>, row: Row, j: nat)
    requires row.plural == Some("s") && row.key.Some? && IsStripped(row.key.value)
    requires Locate(stores, row.ctx, row.key, row.plural, row.trans) == Success(NotFound)
    requires j < |stores| && !stores[j].readOnly
    ensures var after := stores[j := stores[j].(entries := stores[j].entries + [NewRowEntry(row)])];
      Locate(after, row.ctx, row.key, row.plural, row.trans) == Success(WritableMatch(j, |stores[j].entries|, 0))
  {
    var after := stores[j := stores[j].(entries := stores[j].entries + [NewRowEntry(row)])];
    var n := |stores[j].entries|;
    LocateSpec(stores, row.ctx, row.key, row.plural, row.trans);
    OnlyMatchIsAppended(stores, j, NewRowEntry(row), row.key, false, row.ctx);
    StripPadded([], row.key.value, []);
    assert [] + row.key.value + [] == row.key.value;
    assert after[j].entries[n] == NewRowEntry(row);
    assert Matches(after[j].entries[n], row.key, false, false, row.ctx);
    SearchFindsFirst(after, row.key, false, row.ctx);
    assert Search(after, row.key, false, row.ctx) == Some((j, n));
  }

  /**
   * An unmatched singular row that the user adds is appended, once, to the
   * first writable catalog, and a later lookup of the same row finds the
   * new entry in that catalog instead of adding it again.
   */
  lemma AddedRowIsFound(stores: seq<Store>, row: Row, add: bool, confirm: Row -> bool, translated: Entry -> bool)
    requires row.plural == Some("s") && (add || confirm(row))
    requires row.key.Some? && IsStripped(row.key.value)
    requires Locate(stores, row.ctx, row.key, row.plural, row.trans) == Success(NotFound)
    requires FirstWritable(stores, 0).Some?
    ensures var j := FirstWritable(stores, 0).value;
      var after := ProcessRow(stores, row, add, confirm, translated).value;
      && ProcessRow(stores, row, add, confirm, translated).Success?
      && after == stores[j := stores[j].(entries := stores[j].entries + [NewRowEntry(row)])]
      && Locate(after, row.ctx, row.key, row.plural, row.trans) == Success(WritableMatch(j, |stores[j].entries|, 0))
  {
    var j := FirstWritable(stores, 0).value;
    var after := AppendToFirstWritable(stores, NewRowEntry(row));
    assert ApplyLookup(stores, row, NotFound, add, confirm, translated) == Success(after);
    assert ProcessRow(stores, row, add, confirm, translated) == Success(after);
    AppendedIsLocated(stores, row, j);
  }

  /**
   * As written, the appended entry has no context: a row with a context
   * that adds its entry still finds nothing the next time it is looked up,
   * so importing the same sheet again appends the entry again.
   */
  lemma AddedRowAsWrittenIsLost(stores: seq<Store>, row: Row)
    requires row.ctx.Some? && row.plural == Some("s")
    requires Locate(stores, row.ctx, row.key, row.plural, row.trans) == Success(NotFound)
    ensures NewRowEntryAsWritten(row).msgctxt == None
    ensures Locate(AppendToFirstWritable(stores, NewRowEntryAsWritten(row)), row.ctx, row.key, row.plural, row.trans)
         == Success(NotFound)
  {
  }

  /**
   * A singular row whose only match is read-only is handled like an
   * unmatched one: when the user adds it, its entry is appended to the first
   * writable catalog, and the read-only catalog is left alone.
   */
  lemma ReadOnlyMatchAppended(stores: seq<Store>, row: Row, add: bool, confirm: Row -> bool, translated: Entry -> bool,
                              conflict: bool)
    requires row.plural == Some("s") && (add || confirm(row))
    requires Locate(stores, row.ctx, row.key, row.plural, row.trans) == Success(ReadOnlyMatch(conflict))
    ensures ProcessRow(stores, row, add, confirm, translated) == Success(AppendToFirstWritable(stores, NewRowEntry(row)))
    ensures exists j :: 0 <= j < |stores| && stores[j].readOnly
  {
    LocateSpec(stores, row.ctx, row.key, row.plural, row.trans);
  }

  // ---------------------------------------------------------------------------
  // The imperative loop itself

  /** `po.append(entry)` to the first catalog that is not read-only. */
  method AppendFirstWritable(pofiles: seq<(bool, PoFile)>, e: Entry)
    requires DistinctFiles(pofiles)
    modifies Files(pofiles)
    ensures Stores(pofiles) == AppendToFirstWritable(old(Stores(pofiles)), e)
    ensures forall j :: 0 <= j < |pofiles| ==> pofiles[j].1.disk == old(pofiles[j].1.disk)
  {
    ghost var before := Stores(pofiles);
    var j := 0;
    while j < |pofiles|
      invariant 0 <= j <= |pofiles|
      invariant FirstWritable(before, 0) == FirstWritable(before, j)
      invariant Stores(pofiles) == before
    {
      if !pofiles[j].0 {
        pofiles[j].1.Append(e);
        assert Stores(pofiles) == before[j := before[j].(entries := before[j].entries + [e])];
        return;
      }
      j := j + 1;
    }
  }

  /** `handle_entry` on the entry at `(j, i)` of the catalogs themselves. */
  method ReconcileIn(pofiles: seq<(bool, PoFile)>, j: nat, i: nat, multiplicity: nat, row: Row, translated: Entry -> bool)
    returns (r: Result<(), ImportError>)
    requires DistinctFiles(pofiles)
    requires j < |pofiles| && i < |pofiles[j].1.entries|
    modifies pofiles[j].1
    ensures var expected := ReconcileAt(old(Stores(pofiles)), j, i, multiplicity, row, translated);
      && r.Success? == expected.Success?
      && (r.Success? ==> Stores(pofiles) == expected.value)
      && (r.Failure? ==> r.error == expected.error)
    ensures forall k :: 0 <= k < |pofiles| ==> pofiles[k].1.disk == old(pofiles[k].1.disk)
  {
    ghost var before := Stores(pofiles);
    var po := pofiles[j].1;
    var outcome := po.HandleEntry(i, multiplicity, row.trans, row.flag == 1, translated(po.entries[i]));
    if outcome.Failure? {
      return Failure(outcome.error);
    }
    assert Stores(pofiles) == before[j := before[j].(entries := po.entries)];
    return Success(());
  }

  /** One iteration of the row loop on the catalogs themselves. */
  method ImportRow(pofiles: seq<(bool, PoFile)>, row: Row, add: bool, confirm: Row -> bool, translated: Entry -> bool)
    returns (r: Result<(), ImportError>)
    requires DistinctFiles(pofiles)
    modifies Files(pofiles)
    ensures var expected := ProcessRow(old(Stores(pofiles)), row, add, confirm, translated);
      && r.Success? == expected.Success?
      && (r.Success? ==> Stores(pofiles) == expected.value)
      && (r.Failure? ==> r.error == expected.error)
    ensures forall j :: 0 <= j < |pofiles| ==> pofiles[j].1.disk == old(pofiles[j].1.disk)
  {
    if row.key.None? && row.trans.None? {
      return Success(());
    }
    var found := FindEntry(Stores(pofiles), row.ctx, row.key, row.plural, row.trans);
    if found.Failure? {
      return Failure(found.error);
    }
    match found.value {
      case WritableMatch(j, i, m) =>
        r := ReconcileIn(pofiles, j, i, m, row, translated);
      case _ =>
        if row.plural == Some("s") && (add || confirm(row)) {
          AppendFirstWritable(pofiles, NewRowEntry(row));
        }
        return Success(());
    }
  }

  /** The save pass: `po.save()` for every writable catalog, unless pretending. */
  method SaveAll(pofiles: seq<(bool, PoFile)>, pretend: bool)
    requires DistinctFiles(pofiles)
    modifies Files(pofiles)
    ensures Stores(pofiles) == old(Stores(pofiles))
    ensures forall j :: 0 <= j < |pofiles| ==>
      pofiles[j].1.disk == if !pretend && !pofiles[j].0 then pofiles[j].1.entries else old(pofiles[j].1.disk)
  {
    if pretend {
      return;
    }
    var j := 0;
    while j < |pofiles|
      invariant 0 <= j <= |pofiles|
      invariant Stores(pofiles) == old(Stores(pofiles))
      invariant forall k :: 0 <= k < |pofiles| ==>
        pofiles[k].1.disk == if k < j && !pofiles[k].0 then pofiles[k].1.entries else old(pofiles[k].1.disk)
    {
      if !pofiles[j].0 {
        pofiles[j].1.Save();
      }
      j := j + 1;
    }
  }

  /**
   * Lines 108-141 of `main`: every data row in turn, then the save pass.
   * The catalogs end as `ImportRows` says; a writable catalog's file holds
   * its new entries unless the run pretends; a read-only catalog's file, and
   * every file after an exception, is untouched.
   */
  method Import(pofiles: seq<(bool, PoFile)>, rows: seq<seq<Cell>>, cols: Columns, pretend: bool, add: bool,
                confirm: Row -> bool, translated: Entry -> bool) returns (r: Result<(), ImportError>)
    requires DistinctFiles(pofiles)
    modifies Files(pofiles)
    ensures var expected := ImportRows(old(Stores(pofiles)), rows, cols, add, confirm, translated);
      && r.Success? == expected.Success?
      && (r.Success? ==> Stores(pofiles) == expected.value)
      && (r.Failure? ==> r.error == expected.error)
    ensures forall j :: 0 <= j < |pofiles| ==>
      pofiles[j].1.disk == if r.Success? && !pretend && !pofiles[j].0 then pofiles[j].1.entries else old(pofiles[j].1.disk)
  {
    var k := 0;
    while k < |rows|
      invariant 0 <= k <= |rows|
      invariant ImportRows(Stores(pofiles), rows[k..], cols, add, confirm, translated)
             == ImportRows(old(Stores(pofiles)), rows, cols, add, confirm, translated)
      invariant forall j :: 0 <= j < |pofiles| ==> pofiles[j].1.disk == old(pofiles[j].1.disk)
    {
      var row := ReadRow(rows[k], cols);
      if row.Failure? {
        return Failure(row.error);
      }
      var step := ImportRow(pofiles, row.value, add, confirm, translated);
      if step.Failure? {
        return Failure(step.error);
      }
      assert rows[k..][1..] == rows[k + 1..];
      k := k + 1;
    }
    SaveAll(pofiles, pretend);
    return Success(());
  }
}
