// Boolean UI preferences kept in a storage object (apps/web/src/lib/ui-prefs.js):
// a flag is stored as "1" or "0", and every storage failure falls back quietly.
module UiPrefs {
  import opened Results

  const ProgressListOpenKey: string := "ui.progressListOpen"

  /** A storage-like object: whether it has a getItem and a setItem function,
      whether calling them throws, and the items it holds. */
  datatype Storage = Storage(hasGet: bool, hasSet: bool, getThrows: bool, setThrows: bool,
                             items: map<string, string>)

  /** A storage whose getItem can be called; None stands for null or undefined. */
  predicate Readable(storage: Option<Storage>) {
    storage.Some? && storage.value.hasGet && !storage.value.getThrows
  }

  predicate Writable(storage: Option<Storage>) {
    storage.Some? && storage.value.hasSet && !storage.value.setThrows
  }

  /** getItem: the stored text, or null. */
  function GetItem(s: Storage, key: string): Option<string> {
    if key in s.items then Some(s.items[key]) else None
  }

  function FlagText(value: bool): string { if value then "1" else "0" }

  /** readBooleanFlag: "1" is true, "0" is false; anything else, a missing
      storage or getItem, and a getItem that throws give the default. */
  function ReadBooleanFlag(storage: Option<Storage>, key: string, defaultValue: bool): (b: bool)
    ensures !Readable(storage) ==> b == defaultValue
    ensures Readable(storage) && GetItem(storage.value, key) == Some("1") ==> b
    ensures Readable(storage) && GetItem(storage.value, key) == Some("0") ==> !b
    ensures Readable(storage) && GetItem(storage.value, key) != Some("1") && GetItem(storage.value, key) != Some("0")
      ==> b == defaultValue
  {
    if storage.None? || !storage.value.hasGet then defaultValue
    else if storage.value.getThrows then defaultValue
    else
      var raw := GetItem(storage.value, key);
      if raw == Some("1") then true
      else if raw == Some("0") then false
      else defaultValue
  }

  /** writeBooleanFlag: the storage afterwards. A missing storage or setItem, or a
      setItem that throws, leaves it as it was. */
  function WriteBooleanFlag(storage: Option<Storage>, key: string, value: bool): (r: Option<Storage>)
    ensures !Writable(storage) ==> r == storage
    ensures Writable(storage) ==> r.Some? && r.value.items == storage.value.items[key := FlagText(value)]
    ensures r.Some? <==> storage.Some?
    ensures r.Some? ==> r.value.hasGet == storage.value.hasGet && r.value.getThrows == storage.value.getThrows
  {
    if storage.None? || !storage.value.hasSet then storage
    else if storage.value.setThrows then storage
    else Some(storage.value.(items := storage.value.items[key := FlagText(value)]))
  }

  /** A written flag reads back as written, whatever the default. */
  lemma WriteThenRead(storage: Option<Storage>, key: string, value: bool, defaultValue: bool)
    requires Readable(storage) && Writable(storage)
    ensures ReadBooleanFlag(WriteBooleanFlag(storage, key, value), key, defaultValue) == value
  {
  }

  /** Writing one flag leaves every other flag as it read before. */
  lemma WriteKeepsOthers(storage: Option<Storage>, key: string, other: string, value: bool, defaultValue: bool)
    requires key != other
    ensures ReadBooleanFlag(WriteBooleanFlag(storage, key, value), other, defaultValue)
      == ReadBooleanFlag(storage, other, defaultValue)
  {
  }

  /** readProgressListOpen: the progress list is open unless stored closed. */
  function ReadProgressListOpen(storage: Option<Storage>): (b: bool)
    ensures !b ==> Readable(storage) && GetItem(storage.value, ProgressListOpenKey) == Some("0")
  {
    ReadBooleanFlag(storage, ProgressListOpenKey, true)
  }

  function WriteProgressListOpen(value: bool, storage: Option<Storage>): (r: Option<Storage>)
    ensures Readable(storage) && Writable(storage) ==> ReadProgressListOpen(r) == value
  {
    WriteBooleanFlag(storage, ProgressListOpenKey, value)
  }

  // The source's ui-prefs tests.

  lemma DefaultExamples()
    ensures ReadBooleanFlag(None, "k", true)
    ensures !ReadBooleanFlag(None, "k", false)
    ensures ReadBooleanFlag(Some(Storage(false, false, false, false, map[])), "k", true)
  {
  }

  lemma RoundTripExample()
    ensures var s0 := Some(Storage(true, true, false, false, map[]));
      var s1 := WriteBooleanFlag(s0, "x", false);
      var s2 := WriteBooleanFlag(s1, "x", true);
      ReadBooleanFlag(s0, "x", true) && !ReadBooleanFlag(s1, "x", true) && ReadBooleanFlag(s2, "x", false)
  {
  }

  lemma ThrowingExample()
    ensures var s := Some(Storage(true, true, true, true, map[]));
      ReadBooleanFlag(s, "x", true) && WriteBooleanFlag(s, "x", true) == s
  {
  }
}
