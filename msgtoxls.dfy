/**
 * `msgtoxls`: exports the catalogs of several locales to one translation
 * sheet. Entries are gathered into a table with one row per
 * `(context, key, is_plural)` and one slot per requested locale; the rows are
 * sorted by context and lower-cased key and written out, one spreadsheet row
 * each: context, key, plural marker, then a status code and a text per
 * locale, a blank comment cell and the folded occurrence references.
 */
module MsgToXls {
  import opened Wrappers
  import opened Text
  import opened Sorting
  import opened Catalog
  import opened Sheet

  /** The exceptions that abort an export. */
  datatype ExportError =
    | NoSuchPluralForm   // `KeyError` on `msgstr_plural[0]` or `msgstr_plural[1]`
    | MsgstrUnbound      // `UnboundLocalError` on `msgstr` (only the code as written raises it)
    | KeyLocaleMissing   // `locales.index(key_locale)` raises `ValueError`

  /** The table's key, `(msgctxt, key, is_plural)`. */
  datatype RowKey = RowKey(ctx: Option<string>, key: string, plural: bool)

  /**
   * The `entries` defaultdict: its keys in insertion order and, for each key,
   * one slot per requested locale.
   */
  datatype Table = Table(order: seq<RowKey>, slots: map<RowKey, seq<Option<Entry>>>)

  /** Every key once, in `order` exactly when it is in `slots`, each with `n` slots. */
  ghost predicate ValidTable(t: Table, n: nat) {
    && (forall a, b :: 0 <= a < b < |t.order| ==> t.order[a] != t.order[b])
    && (forall k :: k in t.slots <==> k in t.order)
    && (forall k :: k in t.slots ==> |t.slots[k]| == n)
  }

  const EmptyTable: Table := Table([], map[])

  /** `entries[key]`: reading a missing key adds it with `[None] * n`. */
  function Touch(t: Table, k: RowKey, n: nat): (r: Table)
    requires ValidTable(t, n)
    ensures ValidTable(r, n) && k in r.slots
    ensures k in t.slots ==> r == t
    ensures k !in t.slots ==> r.order == t.order + [k] && r.slots == t.slots[k := seq(n, _ => None)]
  {
    if k in t.slots then t else Table(t.order + [k], t.slots[k := seq(n, _ => None)])
  }

  /** `entries[key][idx] = entry`. */
  function Put(t: Table, k: RowKey, idx: nat, e: Entry): (r: Table)
    requires k in t.slots && idx < |t.slots[k]|
  {
    t.(slots := t.slots[k := t.slots[k][idx := Some(e)]])
  }

  /**
   * Whether an occupied singular slot keeps its entry (lines 161-168): its
   * translation, stripped, is not empty. For a plural entry this reads
   * `msgstr_plural[0]`, the value line 163 computes and evidently meant to
   * test (see `KeepsSingularAsWritten`).
   */
  function KeepsSingular(current: Option<Entry>): Result<bool, ExportError> {
    match current
    case None => Success(false)
    case Some(c) =>
      if IsPlural(c) then
        if 0 in c.msgstrPlural then Success(Strip(c.msgstrPlural[0]) != "") else Failure(NoSuchPluralForm)
      else Success(Strip(c.msgstr) != "")
  }

  /** Whether an occupied plural slot keeps its entry (lines 183-185): `msgstr_plural[1]`, stripped, is not empty. */
  function KeepsPlural(current: Option<Entry>): Result<bool, ExportError> {
    match current
    case None => Success(false)
    case Some(c) =>
      if 1 in c.msgstrPlural then Success(Strip(c.msgstrPlural[1]) != "") else Failure(NoSuchPluralForm)
  }

  /**
   * Lines 161-168 as written. `stale` is what the local `msgstr` holds when
   * the slot is examined: the stripped `msgstr` of the last singular entry
   * examined before, or `None` if there was none. A plural entry in the slot
   * leaves it unchanged and it is tested anyway. The result is the decision
   * and the value `msgstr` holds afterwards.
   */
  function KeepsSingularAsWritten(current: Option<Entry>, stale: Option<string>)
    : Result<(bool, Option<string>), ExportError>
  {
    match current
    case None => Success((false, stale))
    case Some(c) =>
      if IsPlural(c) then
        if 0 !in c.msgstrPlural then Failure(NoSuchPluralForm)
        else if stale.None? then Failure(MsgstrUnbound)
        else Success((stale.value != "", stale))
      else
        var v := Strip(c.msgstr);
        Success((v != "", Some(v)))
  }

  /** An entry whose plural forms 0 and 1 hold the given translations. */
  function PluralEntry(msgid: string, msgidPlural: string, form0: string, form1: string): Entry {
    Entry(msgid, msgidPlural, "", map[0 := form0, 1 := form1], None, [], false, [])
  }

  /**
   * As written, a translated plural entry in a singular slot is
   * overwritten when the last singular entry seen had no translation, and
   * aborts the export with `UnboundLocalError` when no singular entry was
   * seen before; the intended test keeps it in both cases.
   */
  lemma SingularSlotAsWrittenLosesTranslation()
    ensures var c := PluralEntry("file", "files", "fichier", "fichiers");
      && KeepsSingular(Some(c)) == Success(true)
      && KeepsSingularAsWritten(Some(c), Some("")) == Success((false, Some("")))
      && KeepsSingularAsWritten(Some(c), None) == Failure(MsgstrUnbound)
  {
    var c := PluralEntry("file", "files", "fichier", "fichiers");
    assert Strip("fichier") == "fichier";
  }

  /**
   * As written, an untranslated plural entry in a singular slot blocks a
   * later translated entry whenever the last singular entry seen was
   * translated; the intended test lets the translation in.
   */
  lemma SingularSlotAsWrittenKeepsUntranslated()
    ensures var c := PluralEntry("file", "files", "", "");
      && KeepsSingular(Some(c)) == Success(false)
      && KeepsSingularAsWritten(Some(c), Some("Datei")) == Success((true, Some("Datei")))
  {
  }

  /** Where both readings apply (an empty slot, or a singular entry in it) they agree. */
  lemma KeepsSingularAgrees(current: Option<Entry>, stale: Option<string>)
    requires current.None? || !IsPlural(current.value)
    ensures KeepsSingularAsWritten(current, stale).Success? && KeepsSingular(current).Success?
    ensures KeepsSingularAsWritten(current, stale).value.0 == KeepsSingular(current).value
  {
  }

  /**
   * The body of the inner loop (lines 149-187) for one entry of a catalog of
   * a requested locale, with `idx` that locale's position and `isKey` whether
   * it is the key locale: obsolete entries and untranslated key-locale
   * entries are skipped; the entry takes its singular row's slot unless that
   * slot keeps its entry; a plural entry that took it then also takes its
   * plural row's slot unless that one keeps its entry.
   */
  function Step(t: Table, n: nat, idx: nat, isKey: bool, e: Entry): (r: Result<Table, ExportError>)
    requires ValidTable(t, n) && idx < n
    ensures r.Success? ==> ValidTable(r.value, n)
  {
    if e.obsolete then Success(t)
    else if isKey && e.msgstr == "" then Success(t)
    else
      var k := RowKey(e.msgctxt, Strip(e.msgid), false);
      var t1 := Touch(t, k, n);
      match KeepsSingular(t1.slots[k][idx])
      case Failure(err) => Failure(err)
      case Success(true) => Success(t1)
      case Success(false) =>
        var t2 := Put(t1, k, idx, e);
        if !IsPlural(e) then Success(t2) else PluralStep(t2, n, idx, e)
  }

  /**
   * The plural half of a step (lines 177-187), once a plural entry has
   * taken its singular row's slot: it takes its plural row's slot unless
   * that slot keeps its entry.
   */
  function PluralStep(t: Table, n: nat, idx: nat, e: Entry): (r: Result<Table, ExportError>)
    requires ValidTable(t, n) && idx < n
    ensures r.Success? ==> ValidTable(r.value, n)
  {
    var kp := RowKey(e.msgctxt, Strip(e.msgidPlural), true);
    var t3 := Touch(t, kp, n);
    match KeepsPlural(t3.slots[kp][idx])
    case Failure(err) => Failure(err)
    case Success(true) => Success(t3)
    case Success(false) => Success(Put(t3, kp, idx, e))
  }

  /** The inner loop over one catalog's entries, a step per entry. */
  function CollectEntries(t: Table, n: nat, idx: nat, isKey: bool, entries: seq<Entry>): (r: Result<Table, ExportError>)
    requires ValidTable(t, n) && idx < n
    ensures r.Success? ==> ValidTable(r.value, n)
    decreases |entries|
  {
    if entries == [] then Success(t)
    else
      match CollectEntries(t, n, idx, isKey, entries[..|entries| - 1])
      case Failure(err) => Failure(err)
      case Success(t') => Step(t', n, idx, isKey, entries[|entries| - 1])
  }

  /** `locales.index(l)`. */
  function Position(locales: seq<string>, l: string): (i: nat)
    requires l in locales
    ensures i < |locales| && locales[i] == l && l !in locales[..i]
  {
    if locales[0] == l then 0
    else
      assert l in locales[1..] by {
        var k :| 0 <= k < |locales| && locales[k] == l;
        assert locales[1..][k - 1] == l;
      }
      1 + Position(locales[1..], l)
  }

  /**
   * The outer loop (lines 141-187) over `(locale, entries)` catalogs, folder
   * by folder: catalogs of locales that were not requested are passed over.
   */
  function CollectCatalogs(t: Table, locales: seq<string>, keyLocale: string, catalogs: seq<(string, seq<Entry>)>)
    : (r: Result<Table, ExportError>)
    requires ValidTable(t, |locales|)
    ensures r.Success? ==> ValidTable(r.value, |locales|)
    decreases |catalogs|
  {
    if catalogs == [] then Success(t)
    else
      match CollectCatalogs(t, locales, keyLocale, catalogs[..|catalogs| - 1])
      case Failure(err) => Failure(err)
      case Success(t') =>
        var (locale, entries) := catalogs[|catalogs| - 1];
        if locale in locales then CollectEntries(t', |locales|, Position(locales, locale), locale == keyLocale, entries)
        else Success(t')
  }

  /** An exception ends the inner loop: later entries change nothing. */
  lemma {:induction false} EntriesFailurePersists(t: Table, n: nat, idx: nat, isKey: bool, entries: seq<Entry>, m: nat)
    requires ValidTable(t, n) && idx < n && m <= |entries|
    requires CollectEntries(t, n, idx, isKey, entries[..m]).Failure?
    ensures CollectEntries(t, n, idx, isKey, entries) == CollectEntries(t, n, idx, isKey, entries[..m])
    decreases |entries|
  {
    if m == |entries| {
      assert entries[..m] == entries;
    } else {
      var init := entries[..|entries| - 1];
      assert init[..m] == entries[..m];
      EntriesFailurePersists(t, n, idx, isKey, init, m);
    }
  }

  /** An exception ends the outer loop: later catalogs change nothing. */
  lemma {:induction false} CatalogsFailurePersists(t: Table, locales: seq<string>, keyLocale: string,
                                                   catalogs: seq<(string, seq<Entry>)>, c: nat)
    requires ValidTable(t, |locales|) && c <= |catalogs|
    requires CollectCatalogs(t, locales, keyLocale, catalogs[..c]).Failure?
    ensures CollectCatalogs(t, locales, keyLocale, catalogs) == CollectCatalogs(t, locales, keyLocale, catalogs[..c])
    decreases |catalogs|
  {
    if c == |catalogs| {
      assert catalogs[..c] == catalogs;
    } else {
      var init := catalogs[..|catalogs| - 1];
      assert init[..c] == catalogs[..c];
      CatalogsFailurePersists(t, locales, keyLocale, init, c);
    }
  }

  // ---------------------------------------------------------------------------
  // What the table holds

  /**
   * Entry `e` may sit in row `k` in the column of a locale that is the key
   * locale exactly when `isKey`: it is current, the key locale's entries are
   * translated, and the row's key is the entry's context with its stripped
   * `msgid` (singular row) or stripped `msgid_plural` (plural row).
   */
  ghost predicate Fits(k: RowKey, e: Entry, isKey: bool) {
    && !e.obsolete
    && (isKey ==> e.msgstr != "")
    && e.msgctxt == k.ctx
    && (if k.plural then IsPlural(e) && k.key == Strip(e.msgidPlural) else k.key == Strip(e.msgid))
  }

  /** Every row holds at least one entry. */
  ghost predicate RowsOccupied(t: Table, n: nat) {
    forall k :: k in t.slots ==> exists i :: 0 <= i < n && i < |t.slots[k]| && t.slots[k][i].Some?
  }

  /** Every entry fits its row and column. */
  ghost predicate EntriesFit(t: Table, locales: seq<string>, keyLocale: string) {
    forall k, i :: k in t.slots && 0 <= i < |locales| && i < |t.slots[k]| && t.slots[k][i].Some? ==>
      Fits(k, t.slots[k][i].value, locales[i] == keyLocale)
  }

  /** Every row holds at least one entry, and every entry fits its row and column. */
  ghost predicate WellFormed(t: Table, locales: seq<string>, keyLocale: string) {
    ValidTable(t, |locales|) && RowsOccupied(t, |locales|) && EntriesFit(t, locales, keyLocale)
  }

  /** Filling a slot of a (possibly new) row with an entry that fits keeps the table well formed. */
  lemma TouchPutWellFormed(t: Table, locales: seq<string>, keyLocale: string, k: RowKey, idx: nat, e: Entry)
    requires WellFormed(t, locales, keyLocale) && idx < |locales|
    requires Fits(k, e, locales[idx] == keyLocale)
    ensures var t1 := Touch(t, k, |locales|); WellFormed(Put(t1, k, idx, e), locales, keyLocale)
  {
    TouchPutValid(t, |locales|, k, idx, e);
    TouchPutOccupied(t, |locales|, k, idx, e);
    TouchPutFits(t, locales, keyLocale, k, idx, e);
  }

  lemma TouchPutValid(t: Table, n: nat, k: RowKey, idx: nat, e: Entry)
    requires ValidTable(t, n) && idx < n
    ensures ValidTable(Put(Touch(t, k, n), k, idx, e), n)
  {
    var t1 := Touch(t, k, n);
    var t2 := Put(t1, k, idx, e);
    assert t2.order == t1.order && t2.slots.Keys == t1.slots.Keys;
  }

  lemma TouchPutOccupied(t: Table, n: nat, k: RowKey, idx: nat, e: Entry)
    requires ValidTable(t, n) && RowsOccupied(t, n) && idx < n
    ensures RowsOccupied(Put(Touch(t, k, n), k, idx, e), n)
  {
    var t2 := Put(Touch(t, k, n), k, idx, e);
    forall k' | k' in t2.slots ensures exists i :: 0 <= i < n && i < |t2.slots[k']| && t2.slots[k'][i].Some? {
      if k' == k {
        assert t2.slots[k'][idx].Some?;
      } else {
        var i :| 0 <= i < n && i < |t.slots[k']| && t.slots[k'][i].Some?;
        assert t2.slots[k'] == t.slots[k'];
      }
    }
  }

  lemma TouchPutFits(t: Table, locales: seq<string>, keyLocale: string, k: RowKey, idx: nat, e: Entry)
    requires ValidTable(t, |locales|) && EntriesFit(t, locales, keyLocale) && idx < |locales|
    requires Fits(k, e, locales[idx] == keyLocale)
    ensures EntriesFit(Put(Touch(t, k, |locales|), k, idx, e), locales, keyLocale)
  {
    var t1 := Touch(t, k, |locales|);
    var t2 := Put(t1, k, idx, e);
    forall k', i | k' in t2.slots && 0 <= i < |locales| && i < |t2.slots[k']| && t2.slots[k'][i].Some?
      ensures Fits(k', t2.slots[k'][i].value, locales[i] == keyLocale)
    {
      if k' != k {
        assert t2.slots[k'] == t.slots[k'];
      } else if i != idx {
        assert t2.slots[k][i] == t1.slots[k][i];
        assert k in t.slots;
      }
    }
  }

  /** A slot that keeps its entry is occupied, so its row existed already. */
  lemma KeptRowExists(t: Table, n: nat, k: RowKey, idx: nat)
    requires ValidTable(t, n) && idx < n
    requires Touch(t, k, n).slots[k][idx].Some?
    ensures Touch(t, k, n) == t
  {
  }

  lemma StepWellFormed(t: Table, locales: seq<string>, keyLocale: string, idx: nat, e: Entry)
    requires WellFormed(t, locales, keyLocale) && idx < |locales|
    requires Step(t, |locales|, idx, locales[idx] == keyLocale, e).Success?
    ensures WellFormed(Step(t, |locales|, idx, locales[idx] == keyLocale, e).value, locales, keyLocale)
  {
    var n, isKey := |locales|, locales[idx] == keyLocale;
    if !e.obsolete && !(isKey && e.msgstr == "") {
      var k := RowKey(e.msgctxt, Strip(e.msgid), false);
      var t1 := Touch(t, k, n);
      var keep := KeepsSingular(t1.slots[k][idx]);
      if keep == Success(true) {
        KeptRowExists(t, n, k, idx);
      } else if keep == Success(false) {
        var t2 := Put(t1, k, idx, e);
        TouchPutWellFormed(t, locales, keyLocale, k, idx, e);
        if IsPlural(e) {
          PluralStepWellFormed(t2, locales, keyLocale, idx, e);
        }
      }
    }
  }

  lemma PluralStepWellFormed(t: Table, locales: seq<string>, keyLocale: string, idx: nat, e: Entry)
    requires WellFormed(t, locales, keyLocale) && idx < |locales| && IsPlural(e)
    requires !e.obsolete && (locales[idx] == keyLocale ==> e.msgstr != "")
    requires PluralStep(t, |locales|, idx, e).Success?
    ensures WellFormed(PluralStep(t, |locales|, idx, e).value, locales, keyLocale)
  {
    var n := |locales|;
    var kp := RowKey(e.msgctxt, Strip(e.msgidPlural), true);
    var keepPlural := KeepsPlural(Touch(t, kp, n).slots[kp][idx]);
    if keepPlural == Success(true) {
      KeptRowExists(t, n, kp, idx);
    } else {
      TouchPutWellFormed(t, locales, keyLocale, kp, idx, e);
    }
  }

  /** Rows are only ever added, after the existing ones, and a step writes only in column `idx`. */
  ghost predicate Grows(t: Table, r: Table, idx: nat) {
    && t.order <= r.order
    && (forall k :: k in t.slots ==> k in r.slots)
    && (forall k, i :: k in r.slots && 0 <= i < |r.slots[k]| && i != idx ==>
          r.slots[k][i] == if k in t.slots && i < |t.slots[k]| then t.slots[k][i] else None)
  }

  lemma GrowsTransitive(a: Table, b: Table, c: Table, idx: nat)
    requires Grows(a, b, idx) && Grows(b, c, idx)
    requires forall k :: k in b.slots && k in a.slots ==> |b.slots[k]| == |a.slots[k]|
    ensures Grows(a, c, idx)
  {
  }

  lemma TouchGrows(t: Table, k: RowKey, n: nat, idx: nat)
    requires ValidTable(t, n)
    ensures Grows(t, Touch(t, k, n), idx)
  {
  }

  lemma PutGrows(t: Table, k: RowKey, idx: nat, e: Entry)
    requires k in t.slots && idx < |t.slots[k]|
    ensures Grows(t, Put(t, k, idx, e), idx)
  {
  }

  lemma TouchPutGrows(t: Table, k: RowKey, n: nat, idx: nat, e: Entry)
    requires ValidTable(t, n) && idx < n
    ensures Grows(t, Put(Touch(t, k, n), k, idx, e), idx)
  {
    var t1 := Touch(t, k, n);
    TouchGrows(t, k, n, idx);
    PutGrows(t1, k, idx, e);
    GrowsTransitive(t, t1, Put(t1, k, idx, e), idx);
  }

  /** A step whose entry takes its singular row's slot. */
  lemma StepTakes(t: Table, n: nat, idx: nat, isKey: bool, e: Entry)
    requires ValidTable(t, n) && idx < n && !e.obsolete && !(isKey && e.msgstr == "")
    requires var k := RowKey(e.msgctxt, Strip(e.msgid), false); KeepsSingular(Touch(t, k, n).slots[k][idx]) == Success(false)
    ensures var k := RowKey(e.msgctxt, Strip(e.msgid), false); var t2 := Put(Touch(t, k, n), k, idx, e);
      Step(t, n, idx, isKey, e) == if IsPlural(e) then PluralStep(t2, n, idx, e) else Success(t2)
  {
  }

  lemma StepGrows(t: Table, n: nat, idx: nat, isKey: bool, e: Entry)
    requires ValidTable(t, n) && idx < n
    requires Step(t, n, idx, isKey, e).Success?
    ensures Grows(t, Step(t, n, idx, isKey, e).value, idx)
  {
    if !e.obsolete && !(isKey && e.msgstr == "") {
      var k := RowKey(e.msgctxt, Strip(e.msgid), false);
      var t1 := Touch(t, k, n);
      if KeepsSingular(t1.slots[k][idx]) == Success(false) {
        StepTakesGrows(t, n, idx, isKey, e);
      } else {
        assert Step(t, n, idx, isKey, e) == Success(t1);
        TouchGrows(t, k, n, idx);
      }
    }
  }

  lemma StepTakesGrows(t: Table, n: nat, idx: nat, isKey: bool, e: Entry)
    requires ValidTable(t, n) && idx < n && !e.obsolete && !(isKey && e.msgstr == "")
    requires var k := RowKey(e.msgctxt, Strip(e.msgid), false); KeepsSingular(Touch(t, k, n).slots[k][idx]) == Success(false)
    requires Step(t, n, idx, isKey, e).Success?
    ensures Grows(t, Step(t, n, idx, isKey, e).value, idx)
  {
    var k := RowKey(e.msgctxt, Strip(e.msgid), false);
    var t2 := Put(Touch(t, k, n), k, idx, e);
    StepTakes(t, n, idx, isKey, e);
    TouchPutGrows(t, k, n, idx, e);
    if IsPlural(e) {
      assert ValidTable(t2, n);
      PluralStepGrowsFrom(t, t2, n, idx, e);
    }
  }

  lemma PluralStepGrowsFrom(t: Table, t2: Table, n: nat, idx: nat, e: Entry)
    requires ValidTable(t, n) && ValidTable(t2, n) && idx < n && Grows(t, t2, idx)
    requires PluralStep(t2, n, idx, e).Success?
    ensures Grows(t, PluralStep(t2, n, idx, e).value, idx)
  {
    PluralStepGrows(t2, n, idx, e);
    GrowsTransitive(t, t2, PluralStep(t2, n, idx, e).value, idx);
  }

  lemma PluralStepGrows(t: Table, n: nat, idx: nat, e: Entry)
    requires ValidTable(t, n) && idx < n
    requires PluralStep(t, n, idx, e).Success?
    ensures Grows(t, PluralStep(t, n, idx, e).value, idx)
  {
    var kp := RowKey(e.msgctxt, Strip(e.msgidPlural), true);
    if KeepsPlural(Touch(t, kp, n).slots[kp][idx]) == Success(false) {
      TouchPutGrows(t, kp, n, idx, e);
    } else {
      TouchGrows(t, kp, n, idx);
    }
  }

  /**
   * Slot `i` of row `k` holds an entry that keeps it: for a singular row a
   * translation of form 0 or `msgstr`, for a plural row one of form 1.
   */
  ghost predicate Settled(t: Table, k: RowKey, i: nat) {
    && k in t.slots && i < |t.slots[k]|
    && (if k.plural then KeepsPlural(t.slots[k][i]) else KeepsSingular(t.slots[k][i])) == Success(true)
  }

  /** A step leaves a slot of its own column alone when the entry there keeps it. */
  lemma StepKeepsSettledAt(t: Table, n: nat, idx: nat, isKey: bool, e: Entry, k: RowKey)
    requires ValidTable(t, n) && idx < n && Settled(t, k, idx)
    requires Step(t, n, idx, isKey, e).Success?
    ensures var r := Step(t, n, idx, isKey, e).value; k in r.slots && r.slots[k][idx] == t.slots[k][idx]
  {
    var r := Step(t, n, idx, isKey, e).value;
    if !e.obsolete && !(isKey && e.msgstr == "") {
      var k0 := RowKey(e.msgctxt, Strip(e.msgid), false);
      var t1 := Touch(t, k0, n);
      if k == k0 {
        assert t1 == t && r == t;
      } else {
        assert t1.slots[k] == t.slots[k];
        var keep := KeepsSingular(t1.slots[k0][idx]);
        if keep == Success(true) {
          assert r == t1;
        } else {
          assert keep == Success(false);
          var t2 := Put(t1, k0, idx, e);
          assert t2.slots[k] == t.slots[k];
          if !IsPlural(e) {
            assert r == t2;
          } else {
            PluralStepKeepsSettled(t2, n, idx, e, k);
          }
        }
      }
    }
  }

  /** The plural half of a step leaves a settled slot of its own column alone. */
  lemma PluralStepKeepsSettled(t: Table, n: nat, idx: nat, e: Entry, k: RowKey)
    requires ValidTable(t, n) && idx < n && Settled(t, k, idx)
    requires PluralStep(t, n, idx, e).Success?
    ensures var r := PluralStep(t, n, idx, e).value; k in r.slots && r.slots[k][idx] == t.slots[k][idx]
  {
    var kp := RowKey(e.msgctxt, Strip(e.msgidPlural), true);
    var t3 := Touch(t, kp, n);
    if k == kp {
      assert t3 == t;
    } else {
      assert t3.slots[k] == t.slots[k];
    }
  }

  /** The first translated entry wins: no later entry replaces it. */
  lemma StepKeepsSettled(t: Table, n: nat, idx: nat, isKey: bool, e: Entry, k: RowKey, i: nat)
    requires ValidTable(t, n) && idx < n && Settled(t, k, i)
    requires Step(t, n, idx, isKey, e).Success?
    ensures var r := Step(t, n, idx, isKey, e).value; k in r.slots && r.slots[k][i] == t.slots[k][i]
  {
    if i == idx {
      StepKeepsSettledAt(t, n, idx, isKey, e, k);
    } else {
      StepGrows(t, n, idx, isKey, e);
    }
  }

  /** An entry that passes the filters takes its singular row's slot exactly when no translated entry holds it. */
  lemma StepFillsUnsettled(t: Table, n: nat, idx: nat, isKey: bool, e: Entry)
    requires ValidTable(t, n) && idx < n
    requires !e.obsolete && !(isKey && e.msgstr == "")
    requires Step(t, n, idx, isKey, e).Success?
    ensures var k, r := RowKey(e.msgctxt, Strip(e.msgid), false), Step(t, n, idx, isKey, e).value;
      k in r.slots && (r.slots[k][idx] == Some(e) <==> !Settled(t, k, idx) || t.slots[k][idx] == Some(e))
  {
    var k := RowKey(e.msgctxt, Strip(e.msgid), false);
    var t1 := Touch(t, k, n);
    var r := Step(t, n, idx, isKey, e).value;
    var keep := KeepsSingular(t1.slots[k][idx]);
    if keep == Success(true) {
      KeptRowExists(t, n, k, idx);
      assert r == t && Settled(t, k, idx);
    } else {
      assert keep == Success(false);
      var t2 := Put(t1, k, idx, e);
      assert t2.slots[k][idx] == Some(e);
      if IsPlural(e) {
        PluralStepKeepsSingular(t2, n, idx, e, k);
      } else {
        assert r == t2;
      }
      assert r.slots[k][idx] == Some(e);
      assert k in t.slots ==> t1 == t;
    }
  }

  /** The plural half registers the plural row, and the entry takes its slot exactly when no form-1 translation holds it. */
  lemma PluralStepFillsUnsettled(t: Table, n: nat, idx: nat, e: Entry)
    requires ValidTable(t, n) && idx < n
    requires PluralStep(t, n, idx, e).Success?
    ensures var kp, r := RowKey(e.msgctxt, Strip(e.msgidPlural), true), PluralStep(t, n, idx, e).value;
      kp in r.slots && (r.slots[kp][idx] == Some(e) <==> !Settled(t, kp, idx) || t.slots[kp][idx] == Some(e))
  {
    var kp := RowKey(e.msgctxt, Strip(e.msgidPlural), true);
    if KeepsPlural(Touch(t, kp, n).slots[kp][idx]) == Success(true) {
      KeptRowExists(t, n, kp, idx);
    } else {
      assert kp in t.slots ==> Touch(t, kp, n) == t;
    }
  }

  /**
   * A plural entry that takes its singular row's slot also registers its
   * plural row, and takes that slot exactly when no form-1 translation holds it.
   */
  lemma StepFillsPluralUnsettled(t: Table, n: nat, idx: nat, isKey: bool, e: Entry)
    requires ValidTable(t, n) && idx < n
    requires !e.obsolete && !(isKey && e.msgstr == "") && IsPlural(e)
    requires Step(t, n, idx, isKey, e).Success?
    requires !Settled(t, RowKey(e.msgctxt, Strip(e.msgid), false), idx)
    ensures var kp, r := RowKey(e.msgctxt, Strip(e.msgidPlural), true), Step(t, n, idx, isKey, e).value;
      kp in r.slots && (r.slots[kp][idx] == Some(e) <==> !Settled(t, kp, idx) || t.slots[kp][idx] == Some(e))
  {
    var k := RowKey(e.msgctxt, Strip(e.msgid), false);
    var kp := RowKey(e.msgctxt, Strip(e.msgidPlural), true);
    var t1 := Touch(t, k, n);
    if KeepsSingular(t1.slots[k][idx]) == Success(true) {
      KeptRowExists(t, n, k, idx);
      assert false;
    }
    var t2 := Put(t1, k, idx, e);
    assert Step(t, n, idx, isKey, e) == PluralStep(t2, n, idx, e);
    PluralStepFillsUnsettled(t2, n, idx, e);
    assert kp in t.slots <==> kp in t2.slots;
    assert kp in t.slots ==> t2.slots[kp] == t.slots[kp];
  }

  /** The plural half of a step changes no singular row. */
  lemma PluralStepKeepsSingular(t: Table, n: nat, idx: nat, e: Entry, k: RowKey)
    requires ValidTable(t, n) && idx < n && k in t.slots && !k.plural
    requires PluralStep(t, n, idx, e).Success?
    ensures var r := PluralStep(t, n, idx, e).value; k in r.slots && r.slots[k] == t.slots[k]
  {
    var kp := RowKey(e.msgctxt, Strip(e.msgidPlural), true);
    assert Touch(t, kp, n).slots[k] == t.slots[k];
  }

  lemma {:induction false} EntriesWellFormed(t: Table, locales: seq<string>, keyLocale: string, idx: nat, entries: seq<Entry>)
    requires WellFormed(t, locales, keyLocale) && idx < |locales|
    requires CollectEntries(t, |locales|, idx, locales[idx] == keyLocale, entries).Success?
    ensures WellFormed(CollectEntries(t, |locales|, idx, locales[idx] == keyLocale, entries).value, locales, keyLocale)
    decreases |entries|
  {
    if entries != [] {
      var init := entries[..|entries| - 1];
      EntriesWellFormed(t, locales, keyLocale, idx, init);
      var mid := CollectEntries(t, |locales|, idx, locales[idx] == keyLocale, init).value;
      StepWellFormed(mid, locales, keyLocale, idx, entries[|entries| - 1]);
    }
  }

  lemma {:induction false} CatalogsWellFormed(t: Table, locales: seq<string>, keyLocale: string,
                                              catalogs: seq<(string, seq<Entry>)>)
    requires WellFormed(t, locales, keyLocale)
    requires CollectCatalogs(t, locales, keyLocale, catalogs).Success?
    ensures WellFormed(CollectCatalogs(t, locales, keyLocale, catalogs).value, locales, keyLocale)
    decreases |catalogs|
  {
    if catalogs != [] {
      var init := catalogs[..|catalogs| - 1];
      CatalogsWellFormed(t, locales, keyLocale, init);
      var mid := CollectCatalogs(t, locales, keyLocale, init).value;
      var (locale, entries) := catalogs[|catalogs| - 1];
      if locale in locales {
        EntriesWellFormed(mid, locales, keyLocale, Position(locales, locale), entries);
      }
    }
  }

  /**
   * The exported table: no obsolete entry, no untranslated key-locale entry,
   * no row without an entry, and every entry in the row of its context and
   * stripped `msgid` (or `msgid_plural`).
   */
  lemma CollectedWellFormed(locales: seq<string>, keyLocale: string, catalogs: seq<(string, seq<Entry>)>)
    requires CollectCatalogs(EmptyTable, locales, keyLocale, catalogs).Success?
    ensures WellFormed(CollectCatalogs(EmptyTable, locales, keyLocale, catalogs).value, locales, keyLocale)
  {
    CatalogsWellFormed(EmptyTable, locales, keyLocale, catalogs);
  }

  /** The entries of one catalog only fill the column of its locale. */
  lemma {:induction false} EntriesGrow(t: Table, n: nat, idx: nat, isKey: bool, entries: seq<Entry>)
    requires ValidTable(t, n) && idx < n
    requires CollectEntries(t, n, idx, isKey, entries).Success?
    ensures Grows(t, CollectEntries(t, n, idx, isKey, entries).value, idx)
    decreases |entries|
  {
    if entries != [] {
      var init := entries[..|entries| - 1];
      EntriesGrow(t, n, idx, isKey, init);
      var mid := CollectEntries(t, n, idx, isKey, init).value;
      StepGrows(mid, n, idx, isKey, entries[|entries| - 1]);
    }
  }

  /** Once a slot holds a translated entry, no later entry of the same catalog replaces it. */
  lemma {:induction false} EntriesKeepSettled(t: Table, n: nat, idx: nat, isKey: bool, entries: seq<Entry>, k: RowKey, i: nat)
    requires ValidTable(t, n) && idx < n && Settled(t, k, i)
    requires CollectEntries(t, n, idx, isKey, entries).Success?
    ensures var r := CollectEntries(t, n, idx, isKey, entries).value; k in r.slots && r.slots[k][i] == t.slots[k][i]
    decreases |entries|
  {
    if entries != [] {
      var init := entries[..|entries| - 1];
      EntriesKeepSettled(t, n, idx, isKey, init, k, i);
      var mid := CollectEntries(t, n, idx, isKey, init).value;
      StepKeepsSettled(mid, n, idx, isKey, entries[|entries| - 1], k, i);
    }
  }

  /** Once a slot holds a translated entry, no later catalog replaces it. */
  lemma {:induction false} CatalogsKeepSettled(t: Table, locales: seq<string>, keyLocale: string,
                                               catalogs: seq<(string, seq<Entry>)>, k: RowKey, i: nat)
    requires ValidTable(t, |locales|) && Settled(t, k, i)
    requires CollectCatalogs(t, locales, keyLocale, catalogs).Success?
    ensures var r := CollectCatalogs(t, locales, keyLocale, catalogs).value; k in r.slots && r.slots[k][i] == t.slots[k][i]
    decreases |catalogs|
  {
    if catalogs != [] {
      var init := catalogs[..|catalogs| - 1];
      CatalogsKeepSettled(t, locales, keyLocale, init, k, i);
      var mid := CollectCatalogs(t, locales, keyLocale, init).value;
      var (locale, entries) := catalogs[|catalogs| - 1];
      if locale in locales {
        EntriesKeepSettled(mid, |locales|, Position(locales, locale), locale == keyLocale, entries, k, i);
      }
    }
  }

  // ---------------------------------------------------------------------------
  // Row order (line 189)

  /** Python 2's order on an optional context: `None` before every string. */
  predicate CtxLe(a: Option<string>, b: Option<string>) {
    match a
    case None => true
    case Some(x) => b.Some? && StrLe(x, b.value)
  }

  /** `(ctx, key.lower())` of `a` is not greater than that of `b`, as Python compares tuples. */
  predicate RowLe(a: RowKey, b: RowKey) {
    if a.ctx == b.ctx then StrLe(Lower(a.key), Lower(b.key)) else CtxLe(a.ctx, b.ctx)
  }

  lemma CtxLeAntisymmetric(a: Option<string>, b: Option<string>)
    requires CtxLe(a, b) && CtxLe(b, a)
    ensures a == b
  {
    if a.Some? {
      StrLeAntisymmetric(a.value, b.value);
    }
  }

  lemma CtxLeTransitive(a: Option<string>, b: Option<string>, c: Option<string>)
    requires CtxLe(a, b) && CtxLe(b, c)
    ensures CtxLe(a, c)
  {
    if a.Some? {
      StrLeTransitive(a.value, b.value, c.value);
    }
  }

  lemma RowLeTotal(a: RowKey, b: RowKey)
    ensures RowLe(a, b) || RowLe(b, a)
  {
    if a.ctx == b.ctx {
      StrLeTotal(Lower(a.key), Lower(b.key));
    } else if a.ctx.Some? && b.ctx.Some? {
      StrLeTotal(a.ctx.value, b.ctx.value);
    }
  }

  lemma RowLeTransitive(a: RowKey, b: RowKey, c: RowKey)
    requires RowLe(a, b) && RowLe(b, c)
    ensures RowLe(a, c)
  {
    if a.ctx == b.ctx && b.ctx == c.ctx {
      StrLeTransitive(Lower(a.key), Lower(b.key), Lower(c.key));
    } else if a.ctx != b.ctx && b.ctx != c.ctx {
      CtxLeTransitive(a.ctx, b.ctx, c.ctx);
      if a.ctx == c.ctx {
        CtxLeAntisymmetric(a.ctx, b.ctx);
      }
    }
  }

  /** The sort key of line 189 orders rows totally, up to ties. */
  lemma RowLeTotalPreorder()
    ensures TotalPreorder(RowLe)
  {
    forall a, b ensures RowLe(a, b) || RowLe(b, a) {
      RowLeTotal(a, b);
    }
    forall a, b, c | RowLe(a, b) && RowLe(b, c) ensures RowLe(a, c) {
      RowLeTransitive(a, b, c);
    }
  }

  /** `sorted(entries.items(), key=...)`: the row keys in export order. */
  function SortedRows(t: Table): (r: seq<RowKey>)
    ensures forall k :: k in r <==> k in t.order
  {
    var r := StableSort(t.order, RowLe);
    SortIsPermutation(t.order, RowLe);
    assert forall k :: k in r <==> k in t.order by {
      forall k ensures k in r <==> k in t.order {
        assert k in r <==> k in multiset(r);
        assert k in t.order <==> k in multiset(t.order);
      }
    }
    r
  }

  lemma {:induction false} DistinctCount<T>(s: seq<T>)
    requires forall a, b :: 0 <= a < b < |s| ==> s[a] != s[b]
    ensures |set x | x in s| == |s|
  {
    if s != [] {
      var init := s[..|s| - 1];
      DistinctCount(init);
      assert (set x | x in s) == (set x | x in init) + {s[|s| - 1]};
      assert s[|s| - 1] !in init;
    }
  }

  /**
   * The rows come out ordered by context, then lower-cased key; they are
   * the table's rows, each once, so the header's count is the number of
   * distinct `(context, key, is_plural)` keys; rows with equal sort keys
   * keep the table's order.
   */
  lemma ExportOrder(t: Table, n: nat)
    requires ValidTable(t, n)
    ensures Sorted(SortedRows(t), RowLe)
    ensures multiset(SortedRows(t)) == multiset(t.order)
    ensures |SortedRows(t)| == |t.slots.Keys|
    ensures forall k :: k in SortedRows(t) <==> k in t.slots
    ensures forall y :: Ties(SortedRows(t), y, RowLe) == Ties(t.order, y, RowLe)
  {
    RowLeTotalPreorder();
    SortedResult(t.order, RowLe);
    SortIsPermutation(t.order, RowLe);
    forall y ensures Ties(SortedRows(t), y, RowLe) == Ties(t.order, y, RowLe) {
      SortIsStable(t.order, y, RowLe);
    }
    DistinctCount(t.order);
    assert t.slots.Keys == set x | x in t.order;
    assert |SortedRows(t)| == |multiset(SortedRows(t))| == |multiset(t.order)| == |t.order|;
    forall k ensures k in SortedRows(t) <==> k in t.slots {
      assert k in SortedRows(t) <==> k in multiset(SortedRows(t));
      assert k in t.order <==> k in multiset(t.order);
    }
  }

  // ---------------------------------------------------------------------------
  // One sheet row (add_row)

  /** `get_str(entry)` (lines 43-51): the text shown for an entry, stripped; `KeyError` on a missing plural form. */
  function DisplayText(e: Entry, pluralRow: bool): Result<string, ExportError> {
    if pluralRow then
      if 1 in e.msgstrPlural then Success(Strip(e.msgstrPlural[1])) else Failure(NoSuchPluralForm)
    else if IsPlural(e) then
      if 0 in e.msgstrPlural then Success(Strip(e.msgstrPlural[0])) else Failure(NoSuchPluralForm)
    else Success(Strip(e.msgstr))
  }

  /** The table's keep test and the shown text agree: a slot keeps its entry exactly when it shows a text. */
  lemma KeepsIffShown(e: Entry, pluralRow: bool)
    ensures var keep := if pluralRow then KeepsPlural(Some(e)) else KeepsSingular(Some(e));
      && (keep.Success? <==> DisplayText(e, pluralRow).Success?)
      && (keep.Success? ==> keep.value == (DisplayText(e, pluralRow).value != ""))
  {
  }

  /** Line 75: `get_str(e)` for each occupied slot and `''` for an empty one; the first `KeyError` aborts. */
  function Texts(slots: seq<Option<Entry>>, pluralRow: bool): (r: Result<seq<string>, ExportError>)
    ensures r.Success? ==> |r.value| == |slots|
  {
    if slots == [] then Success([])
    else
      var head := if slots[0].Some? then DisplayText(slots[0].value, pluralRow) else Success("");
      match head
      case Failure(err) => Failure(err)
      case Success(text) =>
        match Texts(slots[1..], pluralRow)
        case Failure(err) => Failure(err)
        case Success(rest) => Success([text] + rest)
  }

  /** The texts exist exactly when every occupied slot shows one, and are those texts. */
  lemma {:induction false} TextsSpec(slots: seq<Option<Entry>>, pluralRow: bool)
    ensures Texts(slots, pluralRow).Success? <==>
      forall i :: 0 <= i < |slots| && slots[i].Some? ==> DisplayText(slots[i].value, pluralRow).Success?
    ensures Texts(slots, pluralRow).Success? ==> forall i :: 0 <= i < |slots| ==>
      Texts(slots, pluralRow).value[i] == if slots[i].Some? then DisplayText(slots[i].value, pluralRow).value else ""
  {
    if slots != [] {
      TextsSpec(slots[1..], pluralRow);
      if Texts(slots, pluralRow).Success? {
        forall i | 0 <= i < |slots| ensures Texts(slots, pluralRow).value[i] ==
          if slots[i].Some? then DisplayText(slots[i].value, pluralRow).value else ""
        {
          if i > 0 {
            assert slots[1..][i - 1] == slots[i];
          }
        }
      } else {
        if (if slots[0].Some? then DisplayText(slots[0].value, pluralRow) else Success("")).Success? {
          var i :| 0 <= i < |slots[1..]| && slots[1..][i].Some? && DisplayText(slots[1..][i].value, pluralRow).Failure?;
          assert slots[i + 1] == slots[1..][i];
        }
      }
    }
  }

  /**
   * Lines 99-114: the status code and the text of a locale's cells, given
   * its slot, the slot's shown text, whether it is the key locale's column
   * and the row's key.
   */
  function LocaleCell(slot: Option<Entry>, text: string, isKeyColumn: bool, key: string): (int, string) {
    if slot.Some? && text != "" && FuzzyFlag !in slot.value.flags && !slot.value.obsolete then (2, text)
    else if slot.Some? && text != "" && FuzzyFlag in slot.value.flags then (1, text)
    else if isKeyColumn then (2, key)
    else (0, "")
  }

  /**
   * Code 2 shows a current translation, in every column, or else, in the key column, the key;
   * code 1 a fuzzy translation; code 0 an empty cell outside the key column.
   */
  lemma LocaleCellSpec(slot: Option<Entry>, text: string, isKeyColumn: bool, key: string)
    ensures var (code, msg) := LocaleCell(slot, text, isKeyColumn, key);
      && (code == 0 || code == 1 || code == 2)
      && (code == 0 <==> !isKeyColumn && (slot.None? || text == "" || (FuzzyFlag !in slot.value.flags && slot.value.obsolete)))
      && (code == 0 ==> msg == "")
      && (code == 1 <==> slot.Some? && text != "" && FuzzyFlag in slot.value.flags)
      && (code == 1 ==> msg == text)
      && (code == 2 && msg != key ==> slot.Some? && msg == text != "" && FuzzyFlag !in slot.value.flags && !slot.value.obsolete)
      && (code == 2 && !isKeyColumn ==> msg == text)
      && (slot.Some? && text != "" && FuzzyFlag !in slot.value.flags && !slot.value.obsolete ==> code == 2 && msg == text)
  {
  }

  /** No slot before `i` is occupied. */
  predicate NoneBefore(slots: seq<Option<Entry>>, i: int) {
    forall j :: 0 <= j < i && j < |slots| ==> slots[j].None?
  }

  /** The first occupied slot. */
  function FirstPresent(slots: seq<Option<Entry>>): (r: Option<Entry>)
    ensures r.None? <==> NoneBefore(slots, |slots|)
    ensures r.Some? ==> exists i :: 0 <= i < |slots| && slots[i] == r && NoneBefore(slots, i)
  {
    if slots == [] then None
    else if slots[0].Some? then
      assert slots[0] == slots[0] && NoneBefore(slots, 0);
      slots[0]
    else
      var r := FirstPresent(slots[1..]);
      assert forall j :: 1 <= j < |slots| ==> slots[j] == slots[1..][j - 1];
      assert r.Some? ==> exists i :: 0 <= i < |slots| && slots[i] == r && NoneBefore(slots, i) by {
        if r.Some? {
          var i :| 0 <= i < |slots[1..]| && slots[1..][i] == r && NoneBefore(slots[1..], i);
          assert slots[i + 1] == r && NoneBefore(slots, i + 1);
        }
      }
      r
  }

  /** Lines 53-58 and 93: `'P'` for a plural row, else `'p'` when the first occupied slot holds a plural entry, else `'s'`. */
  function Marker(pluralRow: bool, slots: seq<Option<Entry>>): string {
    if pluralRow then "P"
    else match FirstPresent(slots)
      case Some(e) => if IsPlural(e) then "p" else "s"
      case None => "s"
  }

  /** Line 64: the occurrences of the occupied slots, in column order. */
  function SlotOccurrences(slots: seq<Option<Entry>>): (r: seq<Occurrence>)
    ensures forall o :: o in r <==> exists i :: 0 <= i < |slots| && slots[i].Some? && o in slots[i].value.occurrences
  {
    if slots == [] then []
    else
      var rest := SlotOccurrences(slots[1..]);
      assert forall i :: 1 <= i < |slots| ==> slots[i] == slots[1..][i - 1];
      (if slots[0].Some? then slots[0].value.occurrences else []) + rest
  }

  /** Lines 65-67: `occurrences_dict`, the set of line numbers of each path. */
  function Group(occ: seq<Occurrence>): map<string, set<string>>
    decreases |occ|
  {
    if occ == [] then map[]
    else
      var m, o := Group(occ[..|occ| - 1]), occ[|occ| - 1];
      m[o.path := (if o.path in m then m[o.path] else {}) + {o.line}]
  }

  /** Every path with an occurrence has an entry, holding exactly that path's line numbers. */
  lemma {:induction false} GroupSpec(occ: seq<Occurrence>)
    ensures forall p :: p in Group(occ) <==> exists l :: Occurrence(p, l) in occ
    ensures forall p, l :: p in Group(occ) ==> (l in Group(occ)[p] <==> Occurrence(p, l) in occ)
    decreases |occ|
  {
    if occ != [] {
      var init, o := occ[..|occ| - 1], occ[|occ| - 1];
      GroupSpec(init);
      assert occ == init + [o];
      forall p ensures p in Group(occ) <==> exists l :: Occurrence(p, l) in occ {
        if p == o.path {
          assert Occurrence(p, o.line) in occ;
        } else if p in Group(init) {
          var l :| Occurrence(p, l) in init;
          assert Occurrence(p, l) in occ;
        }
      }
    }
  }

  /** Line 70: `fmt(path, lines)`, the path and its sorted line numbers. */
  function OccurrenceLine(path: string, lines: seq<string>): string {
    path + ":" + Join(lines, ",")
  }

  /** The summary line of each of `paths`, its line numbers sorted. */
  function SummaryLines(d: map<string, set<string>>, paths: seq<string>): (r: seq<string>)
    requires forall p :: p in paths ==> p in d
    ensures |r| == |paths|
  {
    seq(|paths|, j requires 0 <= j < |paths| => OccurrenceLine(paths[j], SortedSet(d[paths[j]])))
  }

  /** Line 72: one line per path, in sorted path order. */
  function FormatOccurrences(d: map<string, set<string>>): string {
    Join(SummaryLines(d, SortedSet(d.Keys)), "\n")
  }

  /**
   * The occurrence summary is the `path:lines` lines of the distinct paths
   * in strictly increasing order, each with its distinct line numbers in
   * strictly increasing order, joined with newlines.
   */
  lemma OccurrenceSummary(occ: seq<Occurrence>, paths: seq<string>, lines: seq<seq<string>>)
    requires StrictlySorted(paths) && forall p :: p in paths <==> exists l :: Occurrence(p, l) in occ
    requires |lines| == |paths|
    requires forall j :: 0 <= j < |paths| ==> StrictlySorted(lines[j])
    requires forall j, l :: 0 <= j < |paths| ==> (l in lines[j] <==> Occurrence(paths[j], l) in occ)
    ensures FormatOccurrences(Group(occ)) ==
      Join(seq(|paths|, j requires 0 <= j < |paths| => OccurrenceLine(paths[j], lines[j])), "\n")
  {
    GroupPaths(occ, paths);
    SummaryLinesOf(occ, paths, lines);
  }

  lemma SummaryLinesOf(occ: seq<Occurrence>, paths: seq<string>, lines: seq<seq<string>>)
    requires |lines| == |paths| && forall p :: p in paths ==> p in Group(occ)
    requires forall j :: 0 <= j < |paths| ==> StrictlySorted(lines[j])
    requires forall j, l :: 0 <= j < |paths| ==> (l in lines[j] <==> Occurrence(paths[j], l) in occ)
    ensures SummaryLines(Group(occ), paths) == seq(|paths|, j requires 0 <= j < |paths| => OccurrenceLine(paths[j], lines[j]))
  {
    var r := SummaryLines(Group(occ), paths);
    forall j | 0 <= j < |paths| ensures r[j] == OccurrenceLine(paths[j], lines[j]) {
      GroupLines(occ, paths[j], lines[j]);
    }
  }

  /** The sorted paths of the grouping are the distinct paths in strictly increasing order. */
  lemma GroupPaths(occ: seq<Occurrence>, paths: seq<string>)
    requires StrictlySorted(paths) && forall p :: p in paths <==> exists l :: Occurrence(p, l) in occ
    ensures SortedSet(Group(occ).Keys) == paths && forall p :: p in paths ==> p in Group(occ)
  {
    GroupSpec(occ);
    StrictlySortedUnique(SortedSet(Group(occ).Keys), paths);
  }

  /** The sorted line numbers of a path are its distinct line numbers in strictly increasing order. */
  lemma GroupLines(occ: seq<Occurrence>, p: string, lines: seq<string>)
    requires p in Group(occ)
    requires StrictlySorted(lines) && forall l :: l in lines <==> Occurrence(p, l) in occ
    ensures SortedSet(Group(occ)[p]) == lines
  {
    GroupSpec(occ);
    StrictlySortedUnique(SortedSet(Group(occ)[p]), lines);
  }

  /** A path's summary line holds no newline when no occurrence does. */
  lemma OccurrenceLineOneLine(occ: seq<Occurrence>, p: string)
    requires forall k :: 0 <= k < |occ| ==> '\n' !in occ[k].path && '\n' !in occ[k].line
    requires p in Group(occ)
    ensures '\n' !in OccurrenceLine(p, SortedSet(Group(occ)[p]))
  {
    GroupedOneLine(occ, p);
    var ls := SortedSet(Group(occ)[p]);
    forall i | 0 <= i < |ls| ensures '\n' !in ls[i] {
      assert ls[i] in Group(occ)[p];
    }
    LineWithoutNewline(p, ls);
  }

  lemma LineWithoutNewline(p: string, ls: seq<string>)
    requires '\n' !in p && forall i :: 0 <= i < |ls| ==> '\n' !in ls[i]
    ensures '\n' !in OccurrenceLine(p, ls)
  {
    assert '\n' !in ",";
    NotInJoin(ls, ",", '\n');
  }

  /** A grouped path and its line numbers hold no newline when no occurrence does. */
  lemma GroupedOneLine(occ: seq<Occurrence>, p: string)
    requires forall k :: 0 <= k < |occ| ==> '\n' !in occ[k].path && '\n' !in occ[k].line
    requires p in Group(occ)
    ensures '\n' !in p && forall l :: l in Group(occ)[p] ==> '\n' !in l
  {
    GroupSpec(occ);
    forall o | o in occ ensures '\n' !in o.path && '\n' !in o.line {
      var k :| 0 <= k < |occ| && occ[k] == o;
    }
    var l :| Occurrence(p, l) in occ;
  }

  /** When no path or line number holds a newline, the summary splits back into one line per distinct path. */
  lemma OccurrenceSummaryLines(occ: seq<Occurrence>)
    requires occ != []
    requires forall k :: 0 <= k < |occ| ==> '\n' !in occ[k].path && '\n' !in occ[k].line
    ensures var d := Group(occ); Split(FormatOccurrences(d), '\n') == SummaryLines(d, SortedSet(d.Keys))
  {
    var d := Group(occ);
    var paths := SortedSet(d.Keys);
    GroupSpec(occ);
    assert Occurrence(occ[0].path, occ[0].line) in occ;
    assert occ[0].path in paths;
    var parts := SummaryLines(d, paths);
    forall j | 0 <= j < |paths| ensures '\n' !in parts[j] {
      OccurrenceLineOneLine(occ, paths[j]);
    }
    assert FormatOccurrences(d) == Join(parts, ['\n']);
    SplitJoin(parts, '\n');
  }

  /** The number of cells `ws.append` writes for a row (line 60). */
  function RowWidth(left: nat, n: nat): nat {
    2 * n + 5 + left
  }

  /** The 1-based column of locale `i`'s status cell, as its header is placed (line 213). */
  function StatusColumn(left: nat, i: nat): nat {
    i * 2 + 4 + left
  }

  /** The status and text cells of the locales, side by side. */
  function Flatten(cells: seq<(int, string)>): (r: seq<Cell>)
    ensures |r| == 2 * |cells|
  {
    if cells == [] then [] else [Num(cells[0].0), Str(cells[0].1)] + Flatten(cells[1..])
  }

  /** Locale `i`'s status is cell `2i`, its text cell `2i + 1`. */
  lemma {:induction false} FlattenAt(cells: seq<(int, string)>, i: nat)
    requires i < |cells|
    ensures Flatten(cells)[2 * i] == Num(cells[i].0) && Flatten(cells)[2 * i + 1] == Str(cells[i].1)
  {
    if i > 0 {
      FlattenAt(cells[1..], i - 1);
    }
  }

  /** Lines 98-120: the status code and text of each locale. */
  function LocaleCells(rk: RowKey, slots: seq<Option<Entry>>, texts: seq<string>, keyIdx: nat): (r: seq<(int, string)>)
    requires |texts| == |slots|
    ensures |r| == |slots|
  {
    seq(|slots|, i requires 0 <= i < |slots| => LocaleCell(slots[i], texts[i], i == keyIdx, rk.key))
  }

  /**
   * A row's values: `left` blank cells, context, key, marker, a status and
   * a text per locale, the untouched comment cell and the occurrences.
   */
  function RowValues(left: nat, ctx: Option<string>, key: string, marker: string, pairs: seq<(int, string)>,
                     summary: string): (r: seq<Cell>)
    ensures |r| == 2 * |pairs| + 5 + left
  {
    Blank(left) + [if ctx.Some? then Str(ctx.value) else Empty, Str(key), Str(marker)] + Flatten(pairs)
    + [Str(""), Str(summary)]
  }

  /** Indexing into the concatenation of three sequences. */
  lemma ConcatAt<T>(a: seq<T>, f: seq<T>, b: seq<T>, i: nat)
    requires i < |a| + |f| + |b|
    ensures (a + f + b)[i] == if i < |a| then a[i] else if i < |a| + |f| then f[i - |a|] else b[i - |a| - |f|]
  {
    if i < |a| + |f| {
      assert (a + f + b)[i] == (a + f)[i];
    }
  }

  /** The cells of a row before the locales: blanks, context, key, marker. */
  lemma RowValuesHead(left: nat, ctx: Option<string>, key: string, marker: string, pairs: seq<(int, string)>,
                      summary: string)
    ensures var r := RowValues(left, ctx, key, marker, pairs, summary);
      && (forall j :: 0 <= j < left ==> r[j] == Str(""))
      && r[left] == (if ctx.Some? then Str(ctx.value) else Empty)
      && r[left + 1] == Str(key)
      && r[left + 2] == Str(marker)
  {
    var a := Blank(left) + [if ctx.Some? then Str(ctx.value) else Empty, Str(key), Str(marker)];
    var f, b := Flatten(pairs), [Str(""), Str(summary)];
    forall j | 0 <= j < left + 3 ensures (a + f + b)[j] == a[j] {
      ConcatAt(a, f, b, j);
    }
    assert forall j :: 0 <= j < left ==> a[j] == Blank(left)[j];
  }

  /** The status and text cells of a row. */
  lemma RowValuesLocales(left: nat, ctx: Option<string>, key: string, marker: string, pairs: seq<(int, string)>,
                         summary: string)
    ensures var r := RowValues(left, ctx, key, marker, pairs, summary);
      forall j :: 0 <= j < 2 * |pairs| ==> r[left + 3 + j] == Flatten(pairs)[j]
  {
    var a := Blank(left) + [if ctx.Some? then Str(ctx.value) else Empty, Str(key), Str(marker)];
    var f, b := Flatten(pairs), [Str(""), Str(summary)];
    forall j | 0 <= j < 2 * |pairs| ensures (a + f + b)[left + 3 + j] == f[j] {
      ConcatAt(a, f, b, left + 3 + j);
    }
  }

  /** The comment and occurrence cells that end a row. */
  lemma RowValuesEnd(left: nat, ctx: Option<string>, key: string, marker: string, pairs: seq<(int, string)>,
                     summary: string)
    ensures var r := RowValues(left, ctx, key, marker, pairs, summary);
      r[left + 3 + 2 * |pairs|] == Str("") && r[left + 4 + 2 * |pairs|] == Str(summary)
  {
    var a := Blank(left) + [if ctx.Some? then Str(ctx.value) else Empty, Str(key), Str(marker)];
    var f, b := Flatten(pairs), [Str(""), Str(summary)];
    ConcatAt(a, f, b, left + 3 + 2 * |pairs|);
    ConcatAt(a, f, b, left + 4 + 2 * |pairs|);
  }

  lemma RowValuesAt(left: nat, ctx: Option<string>, key: string, marker: string, pairs: seq<(int, string)>,
                    summary: string)
    ensures var r := RowValues(left, ctx, key, marker, pairs, summary);
      && (forall j :: 0 <= j < left ==> r[j] == Str(""))
      && r[left] == (if ctx.Some? then Str(ctx.value) else Empty)
      && r[left + 1] == Str(key)
      && r[left + 2] == Str(marker)
      && (forall j :: 0 <= j < 2 * |pairs| ==> r[left + 3 + j] == Flatten(pairs)[j])
      && r[left + 3 + 2 * |pairs|] == Str("")
      && r[left + 4 + 2 * |pairs|] == Str(summary)
  {
    RowValuesHead(left, ctx, key, marker, pairs, summary);
    RowValuesLocales(left, ctx, key, marker, pairs, summary);
    RowValuesEnd(left, ctx, key, marker, pairs, summary);
  }

  /** Locale `i`'s status and text sit in the 0-based cells `StatusColumn(left, i) - 1` and `StatusColumn(left, i)`. */
  lemma RowValuesPair(left: nat, ctx: Option<string>, key: string, marker: string, pairs: seq<(int, string)>,
                      summary: string, i: nat)
    requires i < |pairs|
    ensures var r := RowValues(left, ctx, key, marker, pairs, summary);
      r[StatusColumn(left, i) - 1] == Num(pairs[i].0) && r[StatusColumn(left, i)] == Str(pairs[i].1)
  {
    var a := Blank(left) + [if ctx.Some? then Str(ctx.value) else Empty, Str(key), Str(marker)];
    var f, b := Flatten(pairs), [Str(""), Str(summary)];
    assert StatusColumn(left, i) - 1 == left + 3 + 2 * i;
    ConcatAt(a, f, b, left + 3 + 2 * i);
    ConcatAt(a, f, b, left + 4 + 2 * i);
    FlattenAt(pairs, i);
  }

  /**
   * The values `add_row` leaves in the row of `rk` (lines 42-129), or the
   * `KeyError` of line 75, raised after the blank row was appended.
   */
  function ExportRow(left: nat, rk: RowKey, slots: seq<Option<Entry>>, keyIdx: nat): (r: Result<seq<Cell>, ExportError>)
    ensures r.Success? ==> |r.value| == RowWidth(left, |slots|)
  {
    match Texts(slots, rk.plural)
    case Failure(err) => Failure(err)
    case Success(texts) =>
      Success(RowValues(left, rk.ctx, rk.key, Marker(rk.plural, slots), LocaleCells(rk, slots, texts, keyIdx),
                        FormatOccurrences(Group(SlotOccurrences(slots)))))
  }

  /** The text a slot shows, `''` when it is empty or has none. */
  function ShownText(slot: Option<Entry>, pluralRow: bool): string {
    if slot.Some? && DisplayText(slot.value, pluralRow).Success? then DisplayText(slot.value, pluralRow).value else ""
  }

  /** A row fails exactly when an occupied slot has no text to show. */
  lemma ExportRowFails(left: nat, rk: RowKey, slots: seq<Option<Entry>>, keyIdx: nat)
    ensures ExportRow(left, rk, slots, keyIdx).Failure? <==>
      exists i :: 0 <= i < |slots| && slots[i].Some? && DisplayText(slots[i].value, rk.plural).Failure?
  {
    TextsSpec(slots, rk.plural);
  }

  /** Where the texts exist, they are the shown texts. */
  lemma TextsShown(slots: seq<Option<Entry>>, pluralRow: bool)
    requires Texts(slots, pluralRow).Success?
    ensures forall i :: 0 <= i < |slots| ==> Texts(slots, pluralRow).value[i] == ShownText(slots[i], pluralRow)
  {
    TextsSpec(slots, pluralRow);
  }

  /**
   * The row's layout: each locale's status and text sit under that
   * locale's header, and the comment and occurrences under theirs.
   */
  lemma ExportRowLayout(left: nat, rk: RowKey, slots: seq<Option<Entry>>, keyIdx: nat)
    requires ExportRow(left, rk, slots, keyIdx).Success?
    ensures var cells, n := ExportRow(left, rk, slots, keyIdx).value, |slots|;
      && |cells| == StatusColumn(left, n) + 1
      && (forall j :: 0 <= j < left ==> cells[j] == Str(""))
      && cells[left] == (if rk.ctx.Some? then Str(rk.ctx.value) else Empty)
      && cells[left + 1] == Str(rk.key)
      && cells[left + 2] == Str(Marker(rk.plural, slots))
      && (forall i :: 0 <= i < n ==>
            var cell := LocaleCell(slots[i], ShownText(slots[i], rk.plural), i == keyIdx, rk.key);
            cells[StatusColumn(left, i) - 1] == Num(cell.0) && cells[StatusColumn(left, i)] == Str(cell.1))
      && cells[StatusColumn(left, n) - 1] == Str("")
      && cells[StatusColumn(left, n)] == Str(FormatOccurrences(Group(SlotOccurrences(slots))))
  {
    var texts := Texts(slots, rk.plural).value;
    var cells := ExportRow(left, rk, slots, keyIdx).value;
    var pairs := LocaleCells(rk, slots, texts, keyIdx);
    var summary := FormatOccurrences(Group(SlotOccurrences(slots)));
    assert cells == RowValues(left, rk.ctx, rk.key, Marker(rk.plural, slots), pairs, summary);
    RowValuesAt(left, rk.ctx, rk.key, Marker(rk.plural, slots), pairs, summary);
    TextsShown(slots, rk.plural);
    forall i | 0 <= i < |slots| ensures
      var cell := LocaleCell(slots[i], ShownText(slots[i], rk.plural), i == keyIdx, rk.key);
      cells[StatusColumn(left, i) - 1] == Num(cell.0) && cells[StatusColumn(left, i)] == Str(cell.1)
    {
      RowValuesPair(left, rk.ctx, rk.key, Marker(rk.plural, slots), pairs, summary, i);
      assert texts[i] == ShownText(slots[i], rk.plural);
      assert pairs[i] == LocaleCell(slots[i], texts[i], i == keyIdx, rk.key);
    }
  }

  /** The loop of lines 53-58 with the choice of line 93. */
  method PluralMarker(pluralRow: bool, slots: seq<Option<Entry>>) returns (m: string)
    ensures m == Marker(pluralRow, slots)
  {
    var pluralized := pluralRow;
    if !pluralized {
      var i := 0;
      var searching := true;
      while searching && i < |slots|
        invariant 0 <= i <= |slots|
        invariant searching ==> FirstPresent(slots) == FirstPresent(slots[i..]) && !pluralized
        invariant !searching ==> FirstPresent(slots).Some? && pluralized == IsPlural(FirstPresent(slots).value)
      {
        if slots[i].Some? {
          pluralized := IsPlural(slots[i].value);
          searching := false;
        } else {
          assert slots[i..][1..] == slots[i + 1..];
          i := i + 1;
        }
      }
    }
    m := if pluralRow then "P" else if pluralized then "p" else "s";
  }

  /** The loop of lines 66-67, filling `occurrences_dict`. */
  method FoldOccurrences(occ: seq<Occurrence>) returns (d: map<string, set<string>>)
    ensures d == Group(occ)
  {
    d := map[];
    var i := 0;
    while i < |occ|
      invariant 0 <= i <= |occ|
      invariant d == Group(occ[..i])
    {
      assert occ[..i + 1][..i] == occ[..i];
      var o := occ[i];
      var lines := if o.path in d then d[o.path] else {};
      d := d[o.path := lines + {o.line}];
      i := i + 1;
    }
    assert occ[..i] == occ;
  }

  /** The row buffer once the first `i` locales are written: the rest is still blank. */
  function Partial(left: nat, ctx: Option<string>, key: string, marker: string, pairs: seq<(int, string)>, i: nat)
    : (r: seq<Cell>)
    requires i <= |pairs|
    ensures |r| == 2 * |pairs| + 5 + left
  {
    Blank(left) + [if ctx.Some? then Str(ctx.value) else Empty, Str(key), Str(marker)] + Flatten(pairs[..i])
    + Blank(2 * (|pairs| - i) + 2)
  }

  lemma {:induction false} FlattenSnoc(pairs: seq<(int, string)>, i: nat)
    requires i < |pairs|
    ensures Flatten(pairs[..i + 1]) == Flatten(pairs[..i]) + [Num(pairs[i].0), Str(pairs[i].1)]
  {
    if i > 0 {
      FlattenSnoc(pairs[1..], i - 1);
      assert pairs[1..][..i] == pairs[..i + 1][1..];
      assert pairs[1..][..i - 1] == pairs[..i][1..];
    }
  }

  /** Writing locale `i`'s status and text turns the buffer for `i` locales into the one for `i + 1`. */
  lemma PartialStep(left: nat, ctx: Option<string>, key: string, marker: string, pairs: seq<(int, string)>, i: nat)
    requires i < |pairs|
    ensures Partial(left, ctx, key, marker, pairs, i)[left + 3 + 2 * i := Num(pairs[i].0)][left + 4 + 2 * i := Str(pairs[i].1)]
         == Partial(left, ctx, key, marker, pairs, i + 1)
  {
    FlattenSnoc(pairs, i);
    var head := Blank(left) + [if ctx.Some? then Str(ctx.value) else Empty, Str(key), Str(marker)];
    var pre := head + Flatten(pairs[..i]);
    assert |pre| == left + 3 + 2 * i;
    var rest := 2 * (|pairs| - i);
    assert Blank(rest + 2) == [Str(""), Str("")] + Blank(rest);
    assert Partial(left, ctx, key, marker, pairs, i) == pre + [Str(""), Str("")] + Blank(rest);
    assert Partial(left, ctx, key, marker, pairs, i + 1) == pre + [Num(pairs[i].0), Str(pairs[i].1)] + Blank(rest);
  }

  /** The blank buffer with context, key and marker written is the buffer for no locales. */
  lemma PartialStart(left: nat, ctx: Option<string>, key: string, marker: string, pairs: seq<(int, string)>)
    ensures Blank(2 * |pairs| + 5 + left)[left := if ctx.Some? then Str(ctx.value) else Empty][left + 1 := Str(key)]
                                          [left + 2 := Str(marker)]
         == Partial(left, ctx, key, marker, pairs, 0)
  {
    assert pairs[..0] == [];
  }

  /** With every locale written, only the occurrences cell remains. */
  lemma PartialEnd(left: nat, ctx: Option<string>, key: string, marker: string, pairs: seq<(int, string)>,
                   summary: string)
    ensures Partial(left, ctx, key, marker, pairs, |pairs|)[2 * |pairs| + 4 + left := Str(summary)]
         == RowValues(left, ctx, key, marker, pairs, summary)
  {
    assert pairs[..|pairs|] == pairs;
  }

  /** Lines 81-129: fills a row buffer, locale by locale. */
  method FillRow(left: nat, rk: RowKey, marker: string, slots: seq<Option<Entry>>, texts: seq<string>, keyIdx: nat,
                 summary: string) returns (r: seq<Cell>)
    requires |texts| == |slots|
    ensures r == RowValues(left, rk.ctx, rk.key, marker, LocaleCells(rk, slots, texts, keyIdx), summary)
  {
    var n := |slots|;
    var width := 2 * n + 5 + left;
    ghost var pairs := LocaleCells(rk, slots, texts, keyIdx);
    var row := new Cell[width](_ => Str(""));
    row[left] := if rk.ctx.Some? then Str(rk.ctx.value) else Empty;
    row[left + 1] := Str(rk.key);
    row[left + 2] := Str(marker);
    PartialStart(left, rk.ctx, rk.key, marker, pairs);
    var i := 0;
    while i < n
      invariant 0 <= i <= n
      invariant row[..] == Partial(left, rk.ctx, rk.key, marker, pairs, i)
    {
      var cell := LocaleCell(slots[i], texts[i], i == keyIdx, rk.key);
      assert pairs[i] == cell;
      PartialStep(left, rk.ctx, rk.key, marker, pairs, i);
      row[left + 3 + 2 * i] := Num(cell.0);
      row[left + 4 + 2 * i] := Str(cell.1);
      i := i + 1;
    }
    row[width - 1] := Str(summary);
    PartialEnd(left, rk.ctx, rk.key, marker, pairs, summary);
    r := row[..];
  }

  /**
   * `add_row`: appends a blank row of `2n + 5 + left` cells, then fills it
   * in place; a `KeyError` leaves the blank row behind.
   */
  method AddRow(ws: Worksheet, left: nat, rk: RowKey, keyIdx: nat, slots: seq<Option<Entry>>)
    returns (r: Result<(), ExportError>)
    modifies ws
    ensures ws.maxRow == old(ws.maxRow) + 1
    ensures r.Success? <==> ExportRow(left, rk, slots, keyIdx).Success?
    ensures r.Failure? ==> ExportRow(left, rk, slots, keyIdx) == Failure(r.error)
    ensures r.Success? ==> ws.cells == Placed(old(ws.cells), ws.maxRow, ExportRow(left, rk, slots, keyIdx).value)
    ensures r.Failure? ==> ws.cells == Placed(old(ws.cells), ws.maxRow, Blank(RowWidth(left, |slots|)))
  {
    var n := |slots|;
    var width := RowWidth(left, n);
    var marker := PluralMarker(rk.plural, slots);
    ws.Append(Blank(width));
    var rowIdx := ws.maxRow;
    var d := FoldOccurrences(SlotOccurrences(slots));
    var summary := FormatOccurrences(d);
    var texts := Texts(slots, rk.plural);
    if texts.Failure? {
      assert ExportRow(left, rk, slots, keyIdx).Failure?;
      return Failure(texts.error);
    }
    var row := FillRow(left, rk, marker, slots, texts.value, keyIdx, summary);
    assert ExportRow(left, rk, slots, keyIdx) == Success(row);
    ws.Overwrite(rowIdx, row);
    PlacedTwice(old(ws.cells), rowIdx, Blank(width), row);
    return Success(());
  }

  /** The body of the inner loop, updating the table in place as lines 149-187 do. */
  method AddEntry(t: Table, n: nat, idx: nat, isKey: bool, e: Entry) returns (r: Result<Table, ExportError>)
    requires ValidTable(t, n) && idx < n
    ensures r == Step(t, n, idx, isKey, e)
  {
    if e.obsolete || (isKey && e.msgstr == "") {
      return Success(t);
    }
    var order, slots := t.order, t.slots;
    var k := RowKey(e.msgctxt, Strip(e.msgid), false);
    if k !in slots {
      order := order + [k];
      slots := slots[k := seq(n, _ => None)];
    }
    var keep := KeepsSingular(slots[k][idx]);
    if keep.Failure? {
      return Failure(keep.error);
    }
    if keep.value {
      return Success(Table(order, slots));
    }
    slots := slots[k := slots[k][idx := Some(e)]];
    if !IsPlural(e) {
      return Success(Table(order, slots));
    }
    var kp := RowKey(e.msgctxt, Strip(e.msgidPlural), true);
    if kp !in slots {
      order := order + [kp];
      slots := slots[kp := seq(n, _ => None)];
    }
    var keepPlural := KeepsPlural(slots[kp][idx]);
    if keepPlural.Failure? {
      return Failure(keepPlural.error);
    }
    if !keepPlural.value {
      slots := slots[kp := slots[kp][idx := Some(e)]];
    }
    return Success(Table(order, slots));
  }

  lemma EntriesSnoc(t: Table, n: nat, idx: nat, isKey: bool, entries: seq<Entry>, m: nat)
    requires ValidTable(t, n) && idx < n && m < |entries|
    requires CollectEntries(t, n, idx, isKey, entries[..m]).Success?
    ensures var mid := CollectEntries(t, n, idx, isKey, entries[..m]).value;
      CollectEntries(t, n, idx, isKey, entries[..m + 1]) == Step(mid, n, idx, isKey, entries[m])
  {
    assert entries[..m + 1][..m] == entries[..m];
  }

  lemma CatalogsSnoc(locales: seq<string>, keyLocale: string, catalogs: seq<(string, seq<Entry>)>, c: nat)
    requires c < |catalogs|
    requires CollectCatalogs(EmptyTable, locales, keyLocale, catalogs[..c]).Success?
    ensures var mid := CollectCatalogs(EmptyTable, locales, keyLocale, catalogs[..c]).value;
      var (locale, entries) := catalogs[c];
      && ValidTable(mid, |locales|)
      && CollectCatalogs(EmptyTable, locales, keyLocale, catalogs[..c + 1])
         == if locale in locales then CollectEntries(mid, |locales|, Position(locales, locale), locale == keyLocale, entries)
            else Success(mid)
  {
    assert catalogs[..c + 1][..c] == catalogs[..c];
  }

  /** The inner loop, over the entries of one catalog. */
  method AddCatalog(t: Table, n: nat, idx: nat, isKey: bool, entries: seq<Entry>) returns (r: Result<Table, ExportError>)
    requires ValidTable(t, n) && idx < n
    ensures r == CollectEntries(t, n, idx, isKey, entries)
  {
    var table := t;
    var m := 0;
    while m < |entries|
      invariant 0 <= m <= |entries|
      invariant ValidTable(table, n)
      invariant CollectEntries(t, n, idx, isKey, entries[..m]) == Success(table)
    {
      EntriesSnoc(t, n, idx, isKey, entries, m);
      var step := AddEntry(table, n, idx, isKey, entries[m]);
      if step.Failure? {
        EntriesFailurePersists(t, n, idx, isKey, entries, m + 1);
        return step;
      }
      table := step.value;
      m := m + 1;
    }
    assert entries[..m] == entries;
    return Success(table);
  }

  /**
   * Lines 139-187: the table built from the catalogs, `(locale, entries)`
   * pairs in folder order; the result is the fold `CollectCatalogs`.
   */
  method Collect(catalogs: seq<(string, seq<Entry>)>, locales: seq<string>, keyLocale: string)
    returns (r: Result<Table, ExportError>)
    ensures r == CollectCatalogs(EmptyTable, locales, keyLocale, catalogs)
  {
    var table := EmptyTable;
    var c := 0;
    while c < |catalogs|
      invariant 0 <= c <= |catalogs|
      invariant CollectCatalogs(EmptyTable, locales, keyLocale, catalogs[..c]) == Success(table)
    {
      var locale, entries := catalogs[c].0, catalogs[c].1;
      CatalogsSnoc(locales, keyLocale, catalogs, c);
      if locale in locales {
        var step := AddCatalog(table, |locales|, Position(locales, locale), locale == keyLocale, entries);
        if step.Failure? {
          CatalogsFailurePersists(EmptyTable, locales, keyLocale, catalogs, c + 1);
          return step;
        }
        table := step.value;
      }
      c := c + 1;
    }
    assert catalogs[..c] == catalogs;
    return Success(table);
  }

  // ---------------------------------------------------------------------------
  // The translations sheet (add_translations_wb)

  /** The sheet's fixed offsets (lines 133-134): headers in row 4, one blank column on the left. */
  const Top: nat := 4
  const Left: nat := 1

  /**
   * The formula heading locale `i` (lines 216-230): the locale upper-cased
   * and the share of status cells equal to 2 in its status column, from the
   * row below the header to `count + top + 1`.
   */
  function LocaleHeader(locale: string, i: nat, count: nat, letters: nat -> string): string {
    "=CONCATENATE(" + "    \"" + Upper(locale) + " (\","
    + "    ROUND(COUNTIF(" + Coord(i * 2 + 4 + Left, Top + 1, letters) + ":"
    + Coord(i * 2 + 4 + Left, count + Top + 1, letters) + ", \"=2\")/" + DecimalString(count) + " *100, 0),"
    + "    \"% translated)\"" + ")"
  }

  /** The formula of every locale, in order. */
  function Formulas(locales: seq<string>, count: nat, letters: nat -> string): (r: seq<string>)
    ensures |r| == |locales|
  {
    seq(|locales|, i requires 0 <= i < |locales| => LocaleHeader(locales[i], i, count, letters))
  }

  /** The first `k` locale headers written over `m`, left to right. */
  function LocaleHeaders(m: map<(nat, nat), Cell>, formulas: seq<string>, k: nat): map<(nat, nat), Cell>
    requires k <= |formulas|
  {
    if k == 0 then m
    else LocaleHeaders(m, formulas, k - 1)[(Top, StatusColumn(Left, k - 1)) := Str(formulas[k - 1])]
  }

  /** The header cells, given the title's and the key column's texts and the locale formulas. */
  function HeaderCells(m: map<(nat, nat), Cell>, titleText: string, keyText: string, formulas: seq<string>)
    : map<(nat, nat), Cell>
  {
    var n := |formulas|;
    var named := m[(Top - 2, Left + 1) := Str(titleText)][(Top, Left + 1) := Str("Context")][(Top, Left + 2) := Str(keyText)];
    LocaleHeaders(named, formulas, n)[(Top, n * 2 + 4 + Left) := Str("Comment")][(Top, n * 2 + 5 + Left) := Str("Occurrences")]
  }

  /** Lines 196-239: the title, the column headers and the locale formulas. */
  function Headers(m: map<(nat, nat), Cell>, title: string, locales: seq<string>, count: nat, letters: nat -> string)
    : map<(nat, nat), Cell>
  {
    HeaderCells(m, "Translations for \"" + title + "\"", "Key (" + DecimalString(count) + " entries)",
                Formulas(locales, count, letters))
  }

  lemma {:induction false} LocaleHeadersAt(m: map<(nat, nat), Cell>, formulas: seq<string>, k: nat)
    requires k <= |formulas|
    ensures var h := LocaleHeaders(m, formulas, k);
      forall i :: 0 <= i < k ==> (Top, StatusColumn(Left, i)) in h && h[(Top, StatusColumn(Left, i))] == Str(formulas[i])
  {
    if k > 0 {
      LocaleHeadersAt(m, formulas, k - 1);
    }
  }

  lemma {:induction false} LocaleHeadersOff(m: map<(nat, nat), Cell>, formulas: seq<string>, k: nat)
    requires k <= |formulas|
    ensures var h := LocaleHeaders(m, formulas, k);
      forall c: (nat, nat) :: (c.0 != Top || c.1 < StatusColumn(Left, 0)) ==> (c in h <==> c in m) && (c in m ==> h[c] == m[c])
  {
    if k > 0 {
      LocaleHeadersOff(m, formulas, k - 1);
    }
  }

  lemma HeaderCellsLayout(m: map<(nat, nat), Cell>, titleText: string, keyText: string, formulas: seq<string>)
    ensures var h := HeaderCells(m, titleText, keyText, formulas);
      && (Top - 2, Left + 1) in h && h[(Top - 2, Left + 1)] == Str(titleText)
      && (Top, Left + 1) in h && h[(Top, Left + 1)] == Str("Context")
      && (Top, Left + 2) in h && h[(Top, Left + 2)] == Str(keyText)
      && (forall i :: 0 <= i < |formulas| ==>
            (Top, StatusColumn(Left, i)) in h && h[(Top, StatusColumn(Left, i))] == Str(formulas[i]))
      && (Top, RowWidth(Left, |formulas|) - 1) in h && h[(Top, RowWidth(Left, |formulas|) - 1)] == Str("Comment")
      && (Top, RowWidth(Left, |formulas|)) in h && h[(Top, RowWidth(Left, |formulas|))] == Str("Occurrences")
      && (forall c: (nat, nat) :: c.0 != Top - 2 && c.0 != Top ==> (c in h <==> c in m) && (c in m ==> h[c] == m[c]))
  {
    HeaderCellsFixed(m, titleText, keyText, formulas);
    HeaderCellsFormulas(m, titleText, keyText, formulas);
    HeaderCellsElsewhere(m, titleText, keyText, formulas);
  }

  lemma HeaderCellsFixed(m: map<(nat, nat), Cell>, titleText: string, keyText: string, formulas: seq<string>)
    ensures var h := HeaderCells(m, titleText, keyText, formulas);
      && (Top - 2, Left + 1) in h && h[(Top - 2, Left + 1)] == Str(titleText)
      && (Top, Left + 1) in h && h[(Top, Left + 1)] == Str("Context")
      && (Top, Left + 2) in h && h[(Top, Left + 2)] == Str(keyText)
      && (Top, RowWidth(Left, |formulas|) - 1) in h && h[(Top, RowWidth(Left, |formulas|) - 1)] == Str("Comment")
      && (Top, RowWidth(Left, |formulas|)) in h && h[(Top, RowWidth(Left, |formulas|))] == Str("Occurrences")
  {
    HeaderCellsNamed(m, titleText, keyText, formulas);
  }

  lemma HeaderCellsNamed(m: map<(nat, nat), Cell>, titleText: string, keyText: string, formulas: seq<string>)
    ensures var h := HeaderCells(m, titleText, keyText, formulas);
      && (Top - 2, Left + 1) in h && h[(Top - 2, Left + 1)] == Str(titleText)
      && (Top, Left + 1) in h && h[(Top, Left + 1)] == Str("Context")
      && (Top, Left + 2) in h && h[(Top, Left + 2)] == Str(keyText)
  {
    var named := m[(Top - 2, Left + 1) := Str(titleText)][(Top, Left + 1) := Str("Context")][(Top, Left + 2) := Str(keyText)];
    LocaleHeadersKeep(named, formulas, |formulas|, (Top - 2, Left + 1));
    LocaleHeadersKeep(named, formulas, |formulas|, (Top, Left + 1));
    LocaleHeadersKeep(named, formulas, |formulas|, (Top, Left + 2));
  }

  /** A cell left of the first locale column, or off the header row, is not a locale header. */
  lemma {:induction false} LocaleHeadersKeep(m: map<(nat, nat), Cell>, formulas: seq<string>, k: nat, c: (nat, nat))
    requires k <= |formulas| && c in m && (c.0 != Top || c.1 < StatusColumn(Left, 0))
    ensures c in LocaleHeaders(m, formulas, k) && LocaleHeaders(m, formulas, k)[c] == m[c]
  {
    if k > 0 {
      LocaleHeadersKeep(m, formulas, k - 1, c);
    }
  }

  lemma HeaderCellsFormulas(m: map<(nat, nat), Cell>, titleText: string, keyText: string, formulas: seq<string>)
    ensures var h := HeaderCells(m, titleText, keyText, formulas);
      forall i :: 0 <= i < |formulas| ==>
        (Top, StatusColumn(Left, i)) in h && h[(Top, StatusColumn(Left, i))] == Str(formulas[i])
  {
    var named := m[(Top - 2, Left + 1) := Str(titleText)][(Top, Left + 1) := Str("Context")][(Top, Left + 2) := Str(keyText)];
    LocaleHeadersAt(named, formulas, |formulas|);
  }

  lemma HeaderCellsElsewhere(m: map<(nat, nat), Cell>, titleText: string, keyText: string, formulas: seq<string>)
    ensures var h := HeaderCells(m, titleText, keyText, formulas);
      forall c: (nat, nat) :: c.0 != Top - 2 && c.0 != Top ==> (c in h <==> c in m) && (c in m ==> h[c] == m[c])
  {
    var named := m[(Top - 2, Left + 1) := Str(titleText)][(Top, Left + 1) := Str("Context")][(Top, Left + 2) := Str(keyText)];
    LocaleHeadersOff(named, formulas, |formulas|);
    assert forall c: (nat, nat) :: c.0 != Top - 2 && c.0 != Top ==> (c in named <==> c in m) && (c in m ==> named[c] == m[c]);
  }

  /**
   * Where the headers sit: the title two rows above the header row, then
   * context, key (with the number of rows), each locale's formula over its
   * status column (the column `add_row` writes its status codes in),
   * comment and occurrences; every cell outside rows 2 and 4 is left as it
   * was.
   */
  lemma HeaderLayout(m: map<(nat, nat), Cell>, title: string, locales: seq<string>, count: nat, letters: nat -> string)
    ensures var h := Headers(m, title, locales, count, letters);
      && (Top - 2, Left + 1) in h && h[(Top - 2, Left + 1)] == Str("Translations for \"" + title + "\"")
      && (Top, Left + 1) in h && h[(Top, Left + 1)] == Str("Context")
      && (Top, Left + 2) in h && h[(Top, Left + 2)] == Str("Key (" + DecimalString(count) + " entries)")
      && (forall i :: 0 <= i < |locales| ==>
            (Top, StatusColumn(Left, i)) in h && h[(Top, StatusColumn(Left, i))] == Str(LocaleHeader(locales[i], i, count, letters)))
      && (Top, RowWidth(Left, |locales|) - 1) in h && h[(Top, RowWidth(Left, |locales|) - 1)] == Str("Comment")
      && (Top, RowWidth(Left, |locales|)) in h && h[(Top, RowWidth(Left, |locales|))] == Str("Occurrences")
      && (forall c: (nat, nat) :: c.0 != Top - 2 && c.0 != Top ==> (c in h <==> c in m) && (c in m ==> h[c] == m[c]))
  {
    var formulas := Formulas(locales, count, letters);
    HeaderCellsLayout(m, "Translations for \"" + title + "\"", "Key (" + DecimalString(count) + " entries)", formulas);
    assert forall i :: 0 <= i < |locales| ==> formulas[i] == LocaleHeader(locales[i], i, count, letters);
  }

  /** The rows appended by the export, the cells after them, and the exception that stopped it, if any. */
  datatype Written = Written(cells: map<(nat, nat), Cell>, rows: nat, error: Option<ExportError>)

  /** `add_row`'s outcome for each key: its row's values, or the `KeyError` it raises. */
  function RowResults(t: Table, rows: seq<RowKey>, keyIdx: nat): (r: seq<Result<seq<Cell>, ExportError>>)
    requires forall k :: k in rows ==> k in t.slots
    ensures |r| == |rows|
  {
    seq(|rows|, j requires 0 <= j < |rows| => ExportRow(Left, rows[j], t.slots[rows[j]], keyIdx))
  }

  /**
   * Lines 242-243: the rows written in turn, the first in row `next`; a
   * `KeyError` ends the loop after its blank row of `width` cells.
   */
  function WriteRows(m: map<(nat, nat), Cell>, next: nat, outs: seq<Result<seq<Cell>, ExportError>>, width: nat)
    : (w: Written)
    decreases |outs|
  {
    if outs == [] then Written(m, 0, None)
    else
      match outs[0]
      case Failure(err) => Written(Placed(m, next, Blank(width)), 1, Some(err))
      case Success(values) =>
        var w := WriteRows(Placed(m, next, values), next + 1, outs[1..], width);
        Written(w.cells, w.rows + 1, w.error)
  }

  /**
   * The loop stops exactly at the first row that cannot be shown: it wrote
   * that many rows and raised that row's exception; otherwise it wrote
   * every row.
   */
  lemma {:induction false} WriteRowsStop(m: map<(nat, nat), Cell>, next: nat, outs: seq<Result<seq<Cell>, ExportError>>,
                                         width: nat)
    ensures var w := WriteRows(m, next, outs, width);
      && (w.error.None? <==> forall j :: 0 <= j < |outs| ==> outs[j].Success?)
      && (w.error.None? ==> w.rows == |outs|)
      && (w.error.Some? ==>
            && 1 <= w.rows <= |outs|
            && (forall j :: 0 <= j < w.rows - 1 ==> outs[j].Success?)
            && outs[w.rows - 1] == Failure(w.error.value))
    decreases |outs|
  {
    if outs != [] && outs[0].Success? {
      var tail := outs[1..];
      WriteRowsStop(Placed(m, next, outs[0].value), next + 1, tail, width);
      assert forall j :: 1 <= j < |outs| ==> outs[j] == tail[j - 1];
    }
  }

  /**
   * When every row can be shown, row `next + j` holds the `j`-th row's
   * values, and every row above `next` is left as it was.
   */
  lemma {:induction false} WriteRowsCells(m: map<(nat, nat), Cell>, next: nat, outs: seq<Result<seq<Cell>, ExportError>>,
                                          width: nat)
    requires forall j :: 0 <= j < |outs| ==> outs[j].Success?
    ensures var w := WriteRows(m, next, outs, width);
      && (forall j :: 0 <= j < |outs| ==> RowHolds(w.cells, next + j, outs[j].value))
      && (forall k: (nat, nat) :: k.0 < next ==> (k in w.cells <==> k in m) && (k in m ==> w.cells[k] == m[k]))
    decreases |outs|
  {
    if outs != [] {
      var values := outs[0].value;
      var placed := Placed(m, next, values);
      var tail := outs[1..];
      PlacedCells(m, next, values);
      assert forall j :: 0 <= j < |tail| ==> tail[j] == outs[j + 1];
      WriteRowsCells(placed, next + 1, tail, width);
      var rest := WriteRows(placed, next + 1, tail, width);
      var w := WriteRows(m, next, outs, width);
      assert w.cells == rest.cells;
      forall c | 1 <= c <= |values| ensures (next, c) in w.cells && w.cells[(next, c)] == values[c - 1] {
        assert (next, c) in placed;
      }
      assert RowHolds(w.cells, next, values);
      forall j | 1 <= j < |outs| ensures RowHolds(w.cells, next + j, outs[j].value) {
        assert outs[j] == tail[j - 1];
        assert RowHolds(rest.cells, next + 1 + (j - 1), tail[j - 1].value);
      }
      forall k: (nat, nat) | k.0 < next ensures (k in w.cells <==> k in m) && (k in m ==> w.cells[k] == m[k]) {
        assert k.0 < next + 1;
      }
    }
  }

  /** The whole sheet after the export: its cells, its last row, and the outcome. */
  datatype Export = Export(cells: map<(nat, nat), Cell>, maxRow: nat, result: Result<(), ExportError>)

  /**
   * `add_translations_wb` (lines 132-243) on a sheet holding `cells` down to
   * row `maxRow`: collect the table, sort its keys, find the key locale,
   * write the headers, then the rows below them.
   */
  function Translations(cells: map<(nat, nat), Cell>, maxRow: nat, catalogs: seq<(string, seq<Entry>)>,
                        locales: seq<string>, keyLocale: string, title: string, letters: nat -> string): (x: Export)
  {
    match CollectCatalogs(EmptyTable, locales, keyLocale, catalogs)
    case Failure(err) => Export(cells, maxRow, Failure(err))
    case Success(t) =>
      if keyLocale !in locales then Export(cells, maxRow, Failure(KeyLocaleMissing))
      else WriteSheet(cells, if maxRow < Top then Top else maxRow, t, locales, Position(locales, keyLocale), title, letters)
  }

  /** Lines 189-243 once the key column is known: headers, then the rows below row `top`. */
  function WriteSheet(cells: map<(nat, nat), Cell>, top: nat, t: Table, locales: seq<string>, keyIdx: nat, title: string,
                      letters: nat -> string): (x: Export)
    requires ValidTable(t, |locales|)
  {
    var rows := SortedRows(t);
    Finish(Headers(cells, title, locales, |rows|, letters), top, RowResults(t, rows, keyIdx), RowWidth(Left, |locales|))
  }

  /** The rows written below row `top` of the sheet `h`, and the outcome. */
  function Finish(h: map<(nat, nat), Cell>, top: nat, outs: seq<Result<seq<Cell>, ExportError>>, width: nat): Export {
    var w := WriteRows(h, top + 1, outs, width);
    Export(w.cells, top + w.rows, if w.error.Some? then Failure(w.error.value) else Success(()))
  }

  /**
   * A successful export wrote every row, the `j`-th in row `top + 1 + j`,
   * and left everything from row `top` up as it was.
   */
  lemma FinishLayout(h: map<(nat, nat), Cell>, top: nat, outs: seq<Result<seq<Cell>, ExportError>>, width: nat)
    requires Finish(h, top, outs, width).result.Success?
    ensures var x := Finish(h, top, outs, width);
      && x.maxRow == top + |outs|
      && (forall j :: 0 <= j < |outs| ==> RowShows(x.cells, top + 1 + j, outs[j]))
      && (forall c: (nat, nat) :: c.0 <= top ==> (c in x.cells <==> c in h) && (c in h ==> x.cells[c] == h[c]))
  {
    WriteRowsStop(h, top + 1, outs, width);
    WriteRowsCells(h, top + 1, outs, width);
  }

  /** Row `row` of `m` shows the row `r` lays out, which raised nothing. */
  predicate RowShows(m: map<(nat, nat), Cell>, row: nat, r: Result<seq<Cell>, ExportError>) {
    r.Success? && RowHolds(m, row, r.value)
  }

  /**
   * When no row raises, the sheet gains one row per key, in export order
   * below row `top`, each as `ExportRow` lays it out.
   */
  lemma WriteSheetRows(cells: map<(nat, nat), Cell>, top: nat, t: Table, locales: seq<string>, keyIdx: nat, title: string,
                       letters: nat -> string)
    requires ValidTable(t, |locales|)
    requires WriteSheet(cells, top, t, locales, keyIdx, title, letters).result.Success?
    ensures var x := WriteSheet(cells, top, t, locales, keyIdx, title, letters);
      var rows := SortedRows(t);
      && x.maxRow == top + |rows|
      && (forall j :: 0 <= j < |rows| ==> RowShows(x.cells, top + 1 + j, ExportRow(Left, rows[j], t.slots[rows[j]], keyIdx)))
  {
    var rows := SortedRows(t);
    var outs := RowResults(t, rows, keyIdx);
    var x := Finish(Headers(cells, title, locales, |rows|, letters), top, outs, RowWidth(Left, |locales|));
    FinishLayout(Headers(cells, title, locales, |rows|, letters), top, outs, RowWidth(Left, |locales|));
    forall j | 0 <= j < |rows| ensures RowShows(x.cells, top + 1 + j, ExportRow(Left, rows[j], t.slots[rows[j]], keyIdx)) {
      assert outs[j] == ExportRow(Left, rows[j], t.slots[rows[j]], keyIdx);
    }
  }

  /**
   * When no row raises, the headers written above the rows stay: the key
   * header counts the distinct keys, and each locale's formula heads its
   * status column and counts over as many rows as there are keys.
   */
  lemma WriteSheetHeaders(cells: map<(nat, nat), Cell>, top: nat, t: Table, locales: seq<string>, keyIdx: nat,
                          title: string, letters: nat -> string)
    requires ValidTable(t, |locales|) && Top <= top
    requires WriteSheet(cells, top, t, locales, keyIdx, title, letters).result.Success?
    ensures var x := WriteSheet(cells, top, t, locales, keyIdx, title, letters);
      && (Top - 2, Left + 1) in x.cells && x.cells[(Top - 2, Left + 1)] == Str("Translations for \"" + title + "\"")
      && (Top, Left + 2) in x.cells && x.cells[(Top, Left + 2)] == Str("Key (" + DecimalString(|t.slots.Keys|) + " entries)")
      && (forall i :: 0 <= i < |locales| ==>
            (Top, StatusColumn(Left, i)) in x.cells && x.cells[(Top, StatusColumn(Left, i))] == Str(LocaleHeader(locales[i], i, |t.slots.Keys|, letters)))
  {
    var rows := SortedRows(t);
    ExportOrder(t, |locales|);
    var h := Headers(cells, title, locales, |rows|, letters);
    HeaderLayout(cells, title, locales, |rows|, letters);
    FinishLayout(h, top, RowResults(t, rows, keyIdx), RowWidth(Left, |locales|));
  }

  /**
   * The export raises only what collecting the table raises, `ValueError`
   * for a key locale that was not requested, or a row's `KeyError`; when it
   * succeeds it has written the sheet of the collected table, with the rows
   * starting below the headers.
   */
  lemma TranslationsSucceed(cells: map<(nat, nat), Cell>, maxRow: nat, catalogs: seq<(string, seq<Entry>)>,
                            locales: seq<string>, keyLocale: string, title: string, letters: nat -> string)
    ensures var x := Translations(cells, maxRow, catalogs, locales, keyLocale, title, letters);
      var c := CollectCatalogs(EmptyTable, locales, keyLocale, catalogs);
      && (c.Failure? ==> x == Export(cells, maxRow, Failure(c.error)))
      && (c.Success? && keyLocale !in locales ==> x == Export(cells, maxRow, Failure(KeyLocaleMissing)))
      && (c.Success? && keyLocale in locales ==>
            x == WriteSheet(cells, if maxRow < Top then Top else maxRow, c.value, locales, Position(locales, keyLocale), title, letters))
  {
  }

  /**
   * The rest of the export once `j` rows are written below row `top` of
   * `m`: the outcome `Finish` reaches from there.
   */
  function Resume(m: map<(nat, nat), Cell>, top: nat, j: nat, rest: seq<Result<seq<Cell>, ExportError>>, width: nat): Export {
    var w := WriteRows(m, top + 1 + j, rest, width);
    Export(w.cells, top + j + w.rows, if w.error.Some? then Failure(w.error.value) else Success(()))
  }

  /** A row that can be shown is written and the export goes on below it. */
  lemma ResumeShown(m: map<(nat, nat), Cell>, top: nat, j: nat, outs: seq<Result<seq<Cell>, ExportError>>, width: nat)
    requires j < |outs| && outs[j].Success?
    ensures Resume(m, top, j, outs[j..], width) == Resume(Placed(m, top + 1 + j, outs[j].value), top, j + 1, outs[j + 1..], width)
  {
    assert outs[j..][0] == outs[j] && outs[j..][1..] == outs[j + 1..];
  }

  /** A row that raises leaves its blank row and ends the export with its exception. */
  lemma ResumeRaised(m: map<(nat, nat), Cell>, top: nat, j: nat, outs: seq<Result<seq<Cell>, ExportError>>, width: nat)
    requires j < |outs| && outs[j].Failure?
    ensures Resume(m, top, j, outs[j..], width) == Export(Placed(m, top + 1 + j, Blank(width)), top + j + 1, Failure(outs[j].error))
  {
    assert outs[j..][0] == outs[j];
  }

  /** `ResumeShown`, for a sheet already known to hold row `j`. */
  lemma ResumeShownAt(m: map<(nat, nat), Cell>, after: map<(nat, nat), Cell>, row: nat, top: nat, j: nat,
                      outs: seq<Result<seq<Cell>, ExportError>>, width: nat)
    requires j < |outs| && outs[j].Success? && row == top + 1 + j && after == Placed(m, row, outs[j].value)
    ensures Resume(m, top, j, outs[j..], width) == Resume(after, top, j + 1, outs[j + 1..], width)
  {
    ResumeShown(m, top, j, outs, width);
  }

  /** `ResumeRaised`, for a sheet already known to hold the blank row `j`. */
  lemma ResumeRaisedAt(m: map<(nat, nat), Cell>, after: map<(nat, nat), Cell>, row: nat, top: nat, j: nat,
                       outs: seq<Result<seq<Cell>, ExportError>>, width: nat)
    requires j < |outs| && outs[j].Failure? && row == top + 1 + j && after == Placed(m, row, Blank(width))
    ensures Resume(m, top, j, outs[j..], width) == Export(after, top + j + 1, Failure(outs[j].error))
  {
    ResumeRaised(m, top, j, outs, width);
  }

  /** Once every row is written the export has succeeded. */
  lemma ResumeDone(m: map<(nat, nat), Cell>, top: nat, j: nat, width: nat)
    ensures Resume(m, top, j, [], width) == Export(m, top + j, Success(()))
  {
  }

  /** The header cells, from the cells named first and the locale headers written after them. */
  lemma HeaderCellsOf(m: map<(nat, nat), Cell>, named: map<(nat, nat), Cell>, placed: map<(nat, nat), Cell>,
                      h: map<(nat, nat), Cell>, titleText: string, keyText: string, formulas: seq<string>, n: nat)
    requires named == m[(Top - 2, Left + 1) := Str(titleText)][(Top, Left + 1) := Str("Context")][(Top, Left + 2) := Str(keyText)]
    requires n == |formulas| && placed == LocaleHeaders(named, formulas, n)
    requires h == placed[(Top, n * 2 + 4 + Left) := Str("Comment")][(Top, n * 2 + 5 + Left) := Str("Occurrences")]
    ensures h == HeaderCells(m, titleText, keyText, formulas)
  {
  }

  /** Lines 212-231: the formula heading each locale's status column, left to right. */
  method WriteLocaleHeaders(ws: Worksheet, locales: seq<string>, count: nat, letters: nat -> string)
    requires ws.maxRow >= Top
    modifies ws
    ensures ws.cells == LocaleHeaders(old(ws.cells), Formulas(locales, count, letters), |locales|)
    ensures ws.maxRow == old(ws.maxRow)
  {
    ghost var formulas := Formulas(locales, count, letters);
    for i := 0 to |locales|
      invariant ws.cells == LocaleHeaders(old(ws.cells), formulas, i)
      invariant ws.maxRow == old(ws.maxRow)
    {
      assert formulas[i] == LocaleHeader(locales[i], i, count, letters);
      ws.Put(Top, StatusColumn(Left, i), Str(LocaleHeader(locales[i], i, count, letters)));
    }
  }

  /** Lines 196-239 on the sheet: the title, the column headers and the locale formulas. */
  method WriteHeaders(ws: Worksheet, title: string, locales: seq<string>, count: nat, letters: nat -> string)
    modifies ws
    ensures ws.cells == Headers(old(ws.cells), title, locales, count, letters)
    ensures ws.maxRow == if old(ws.maxRow) < Top then Top else old(ws.maxRow)
  {
    var titleText, keyText := "Translations for \"" + title + "\"", "Key (" + DecimalString(count) + " entries)";
    ws.Put(Top - 2, Left + 1, Str(titleText));
    ws.Put(Top, Left + 1, Str("Context"));
    ws.Put(Top, Left + 2, Str(keyText));
    ghost var named := ws.cells;
    assert named == old(ws.cells)[(Top - 2, Left + 1) := Str(titleText)][(Top, Left + 1) := Str("Context")][(Top, Left + 2) := Str(keyText)];
    ghost var formulas := Formulas(locales, count, letters);
    WriteLocaleHeaders(ws, locales, count, letters);
    ghost var placed := ws.cells;
    ws.Put(Top, |locales| * 2 + 4 + Left, Str("Comment"));
    ws.Put(Top, |locales| * 2 + 5 + Left, Str("Occurrences"));
    HeaderCellsOf(old(ws.cells), named, placed, ws.cells, titleText, keyText, formulas, |locales|);
  }

  /**
   * `add_translations_wb` (lines 132-243) on a worksheet: the sheet and the
   * outcome are those `Translations` describes.
   */
  method AddTranslations(ws: Worksheet, catalogs: seq<(string, seq<Entry>)>, locales: seq<string>, keyLocale: string,
                         title: string, letters: nat -> string)
    returns (r: Result<(), ExportError>)
    modifies ws
    ensures var x := Translations(old(ws.cells), old(ws.maxRow), catalogs, locales, keyLocale, title, letters);
      ws.cells == x.cells && ws.maxRow == x.maxRow && r == x.result
  {
    assert ValidTable(EmptyTable, |locales|);
    var collected := Collect(catalogs, locales, keyLocale);
    if collected.Failure? {
      return Failure(collected.error);
    }
    var t := collected.value;
    var rows := SortedRows(t);
    if keyLocale !in locales {
      return Failure(KeyLocaleMissing);
    }
    var keyIdx := Position(locales, keyLocale);
    WriteHeaders(ws, title, locales, |rows|, letters);
    r := AddRows(ws, t, rows, keyIdx, |locales|);
  }

  /** Lines 242-243: `add_row` for each key in turn, below the lowest row written so far. */
  method AddRows(ws: Worksheet, t: Table, rows: seq<RowKey>, keyIdx: nat, n: nat) returns (r: Result<(), ExportError>)
    requires forall k :: k in rows ==> k in t.slots && |t.slots[k]| == n
    modifies ws
    ensures var x := Finish(old(ws.cells), old(ws.maxRow), RowResults(t, rows, keyIdx), RowWidth(Left, n));
      ws.cells == x.cells && ws.maxRow == x.maxRow && r == x.result
  {
    ghost var outs := RowResults(t, rows, keyIdx);
    ghost var width := RowWidth(Left, n);
    ghost var target := Finish(ws.cells, ws.maxRow, outs, width);
    var top := ws.maxRow;
    assert outs[0..] == outs;
    var j := 0;
    while j < |rows|
      invariant 0 <= j <= |rows| && ws.maxRow == top + j
      invariant target == Resume(ws.cells, top, j, outs[j..], width)
    {
      ghost var before := ws.cells;
      var out := AddRowAt(ws, t, rows, keyIdx, n, j);
      if out.Failure? {
        ResumeRaisedAt(before, ws.cells, ws.maxRow, top, j, outs, width);
        return out;
      }
      ResumeShownAt(before, ws.cells, ws.maxRow, top, j, outs, width);
      j := j + 1;
    }
    assert outs[j..] == [];
    ResumeDone(ws.cells, top, j, width);
    return Success(());
  }

  /** One pass of the loop of lines 242-243: row `j` goes into the row below the sheet's lowest row. */
  method AddRowAt(ws: Worksheet, t: Table, rows: seq<RowKey>, keyIdx: nat, n: nat, j: nat)
    returns (out: Result<(), ExportError>)
    requires forall k :: k in rows ==> k in t.slots && |t.slots[k]| == n
    requires j < |rows|
    modifies ws
    ensures ws.maxRow == old(ws.maxRow) + 1
    ensures var outs := RowResults(t, rows, keyIdx);
      out.Success? ==> outs[j].Success? && ws.cells == Placed(old(ws.cells), ws.maxRow, outs[j].value)
    ensures var outs := RowResults(t, rows, keyIdx);
      out.Failure? ==> outs[j] == Failure(out.error) && ws.cells == Placed(old(ws.cells), ws.maxRow, Blank(RowWidth(Left, n)))
  {
    ghost var outs := RowResults(t, rows, keyIdx);
    assert outs[j] == ExportRow(Left, rows[j], t.slots[rows[j]], keyIdx);
    out := AddRow(ws, Left, rows[j], keyIdx, t.slots[rows[j]]);
  }

}
