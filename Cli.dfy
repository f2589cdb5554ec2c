/**
 * The command layer: finding an entry by name, checking the database options,
 * opening the database, adding and removing entries, and choosing what the
 * database command does.
 *
 * What the user types is passed in as parameters; messages are not modelled.
 */
module Cli {
  import opened Wrappers
  import opened Entries
  import opened Catalog
  import opened Utils

  // ---------------------------------------------------------------------
  // Finding an entry by name.
  // ---------------------------------------------------------------------

  /** The position of the first entry with the given name, if there is one. */
  function FirstNamed(name: string, es: seq<Entry>): (r: Option<nat>)
    ensures r.Some? ==> r.value < |es| && es[r.value].name == name &&
                        forall j :: 0 <= j < r.value ==> es[j].name != name
    ensures r.None? ==> forall j :: 0 <= j < |es| ==> es[j].name != name
    decreases |es|
  {
    if |es| == 0 then None
    else if es[0].name == name then Some(0)
    else
      match FirstNamed(name, es[1..])
      case None => None
      case Some(i) => Some(i + 1)
  }

  /**
   * The lookup's answer: the first entry with the name, unless showing that
   * entry fails because a placeholder in it cannot be resolved.
   */
  function Lookup(name: string, es: seq<Entry>, vars: map<string, string>): (r: Option<Entry>)
    ensures r.Some? ==> r.value in es && r.value.name == name
  {
    match FirstNamed(name, es)
    case None => None
    case Some(i) => if Locations(es[i], vars).Failure? then None else Some(es[i])
  }

  /**
   * Lookup finds an entry exactly when one has the name and the first such
   * resolves; it is then that first one, and nothing before it has the name.
   */
  lemma LookupIsFirstMatch(name: string, es: seq<Entry>, vars: map<string, string>)
    ensures Lookup(name, es, vars).None? <==>
              (forall j :: 0 <= j < |es| ==> es[j].name != name) ||
              (exists i :: 0 <= i < |es| && es[i].name == name && Locations(es[i], vars).Failure? &&
                           forall j :: 0 <= j < i ==> es[j].name != name)
    ensures Lookup(name, es, vars).Some? ==>
              exists i :: 0 <= i < |es| && es[i] == Lookup(name, es, vars).value &&
                          Locations(es[i], vars).Success? &&
                          forall j :: 0 <= j < i ==> es[j].name != name
  {
    match FirstNamed(name, es)
    case None =>
    case Some(i) =>
      forall k | 0 <= k < |es| && es[k].name == name && forall j :: 0 <= j < k ==> es[j].name != name
        ensures k == i
      {
      }
  }

  /**
   * The lookup as the command layer runs it: the entries in order, stopping
   * at the first with the name. Whether a miss is reported (noErr) does not
   * change the answer.
   */
  method GetEntry(name: string, db: Database, vars: map<string, string>, noErr: bool) returns (r: Option<Entry>)
    requires db.Entries().Success?
    ensures r == Lookup(name, db.Entries().value, vars)
  {
    var entries := db.Entries().value;
    for i := 0 to |entries|
      invariant forall j :: 0 <= j < i ==> entries[j].name != name
    {
      if entries[i].name == name {
        assert FirstNamed(name, entries) == Some(i);
        if Locations(entries[i], vars).Failure? {
          return None;
        }
        return Some(entries[i]);
      }
    }
    return None;
  }

  // ---------------------------------------------------------------------
  // The database options.
  // ---------------------------------------------------------------------

  function CountTrue(flags: seq<bool>): (n: nat)
    ensures n <= |flags|
    decreases |flags|
  {
    if |flags| == 0 then 0 else (if flags[0] then 1 else 0) + CountTrue(flags[1..])
  }

  /** The info, add, remove and delete options are accepted when at most one is set. */
  function EvalDbOpts(info: bool, add: bool, remove: bool, delete: bool): (ok: bool)
  {
    CountTrue([info, add, remove, delete]) <= 1
  }

  /** The options are accepted exactly when no two of them are set together. */
  lemma EvalDbOptsPairwise(info: bool, add: bool, remove: bool, delete: bool)
    ensures EvalDbOpts(info, add, remove, delete) <==>
              !(info && add) && !(info && remove) && !(info && delete) &&
              !(add && remove) && !(add && delete) && !(remove && delete)
  {
    var flags := [info, add, remove, delete];
    assert flags[1..] == [add, remove, delete];
    assert flags[1..][1..] == [remove, delete];
    assert flags[1..][1..][1..] == [delete];
    assert [delete][1..] == [];
    var d := if delete then 1 else 0;
    assert CountTrue([delete]) == d;
    assert CountTrue([remove, delete]) == (if remove then 1 else 0) + d;
    assert CountTrue([add, remove, delete]) == (if add then 1 else 0) + (if remove then 1 else 0) + d;
    assert CountTrue(flags) == (if info then 1 else 0) + (if add then 1 else 0) + (if remove then 1 else 0) + d;
  }

  // ---------------------------------------------------------------------
  // Opening the database.
  // ---------------------------------------------------------------------

  /** The backing file once a missing one has been created with the seed entries. */
  function Opened(onDisk: BackingFile, grub: seq<Template>, zsh: seq<Template>): (f: BackingFile)
    ensures onDisk.Missing? ==> f.Stored?
    ensures !onDisk.Missing? ==> f == onDisk
  {
    if onDisk.Missing? then Stored(DefaultEntries(grub, zsh)) else onDisk
  }

  /**
   * A database at location: created if missing, and given to the caller
   * only when creating it was permitted and its entries can be read.
   */
  method GetDatabase(location: Path, onDisk: BackingFile, permitted: bool, grub: seq<Template>, zsh: seq<Template>)
    returns (db: Database?)
    ensures db == null <==> (onDisk.Missing? && !permitted) || (!onDisk.Missing? && Read(onDisk).Failure?)
    ensures db != null ==> fresh(db) && db.location == location &&
                           db.file == Opened(onDisk, grub, zsh) && db.Entries().Success?
  {
    db := new Database(location, onDisk, grub, zsh);
    if !db.Exists() {
      var created := db.Create(permitted);
      if created.Fail? {
        return null;
      }
    }
    if db.Entries().Failure? {
      return null;
    }
  }

  // ---------------------------------------------------------------------
  // Adding and removing entries.
  // ---------------------------------------------------------------------

  /** The backing file after adding the typed name and locations to the entries es. */
  function AddedEntry(es: seq<Entry>, name: string, templates: seq<Template>): (f: BackingFile)
  {
    if name in Names(es) then Stored(es) else Stored(es + [Entry(name, templates)])
  }

  /** Adding through the command layer keeps names unique and stores the new entry when the name was free. */
  lemma AddedEntryKeepsUnique(es: seq<Entry>, name: string, templates: seq<Template>)
    requires UniqueNames(es)
    ensures AddedEntry(es, name, templates).Stored? && UniqueNames(AddedEntry(es, name, templates).entries)
    ensures name in Names(AddedEntry(es, name, templates).entries)
    ensures name !in Names(es) ==> Entry(name, templates) in AddedEntry(es, name, templates).entries
  {
    if name !in Names(es) {
      AddKeepsNamesUnique(es, Entry(name, templates));
      NamesAppend(es, Entry(name, templates));
    }
  }

  /**
   * Adds an entry with the typed name and locations: refused, with nothing
   * changed, when the name is taken; otherwise appended at the end.
   */
  method AddEntry(db: Database, name: string, templates: seq<Template>) returns (added: bool)
    requires db.Entries().Success?
    modifies db
    ensures added <==> name !in Names(old(db.Entries().value))
    ensures db.file == AddedEntry(old(db.Entries().value), name, templates)
    ensures db.Entries().Success?
  {
    var entries := db.Entries().value;
    if name in Names(entries) {
      return false;
    }
    var r := db.Add(Entry(name, templates));
    AddedEntryKeepsUnique(entries, name, templates);
    added := true;
  }

  /** The backing file after removing what the lookup for name found in es. */
  function RemovedEntry(es: seq<Entry>, name: string, vars: map<string, string>): (f: BackingFile)
  {
    match Lookup(name, es, vars)
    case None => Stored(es)
    case Some(e) => Stored(RemoveFirst(es, e))
  }

  /** Removing through the command layer drops exactly the entry the lookup found. */
  lemma RemovedEntryDropsFound(es: seq<Entry>, name: string, vars: map<string, string>)
    requires UniqueNames(es)
    ensures Lookup(name, es, vars).None? ==> RemovedEntry(es, name, vars) == Stored(es)
    ensures Lookup(name, es, vars).Some? ==>
              var e := Lookup(name, es, vars).value;
              e !in RemovedEntry(es, name, vars).entries &&
              multiset(RemovedEntry(es, name, vars).entries) == multiset(es) - multiset{e}
  {
    if Lookup(name, es, vars).Some? {
      RemoveLeavesNone(es, Lookup(name, es, vars).value);
    }
  }

  /** Removes the entry the lookup for the typed name finds; nothing changes when it finds none. */
  method RmEntry(db: Database, name: string, vars: map<string, string>)
    requires db.Entries().Success?
    modifies db
    ensures db.file == RemovedEntry(old(db.Entries().value), name, vars)
  {
    var entries := db.Entries().value;
    var found := GetEntry(name, db, vars, false);
    if found.None? {
      return;
    }
    var r := db.Remove(found.value);
  }

  // ---------------------------------------------------------------------
  // The database command.
  // ---------------------------------------------------------------------

  datatype Action = Nothing | ShowInfo | AddNew | RemoveOld | ShowHelp

  /** What the database command does: nothing, or info over add over remove over help. */
  function Dispatch(optsOk: bool, haveDb: bool, info: bool, add: bool, remove: bool): (a: Action)
  {
    if !optsOk || !haveDb then Nothing
    else if info then ShowInfo
    else if add then AddNew
    else if remove then RemoveOld
    else ShowHelp
  }

  /** Each action is chosen exactly when the options above it in precedence are off. */
  lemma DispatchPrecedence(optsOk: bool, haveDb: bool, info: bool, add: bool, remove: bool)
    ensures Dispatch(optsOk, haveDb, info, add, remove) == Nothing <==> !optsOk || !haveDb
    ensures Dispatch(optsOk, haveDb, info, add, remove) == ShowInfo <==> optsOk && haveDb && info
    ensures Dispatch(optsOk, haveDb, info, add, remove) == AddNew <==> optsOk && haveDb && !info && add
    ensures Dispatch(optsOk, haveDb, info, add, remove) == RemoveOld <==> optsOk && haveDb && !info && !add && remove
    ensures Dispatch(optsOk, haveDb, info, add, remove) == ShowHelp <==> optsOk && haveDb && !info && !add && !remove
  {
  }

  /** Accepted options never hold two actions at once, so the precedence never hides one. */
  lemma AcceptedOptionsChooseTheirAction(info: bool, add: bool, remove: bool, delete: bool)
    requires EvalDbOpts(info, add, remove, delete)
    ensures info ==> Dispatch(true, true, info, add, remove) == ShowInfo
    ensures add ==> Dispatch(true, true, info, add, remove) == AddNew
    ensures remove ==> Dispatch(true, true, info, add, remove) == RemoveOld
    ensures delete ==> Dispatch(true, true, info, add, remove) == ShowHelp
  {
    EvalDbOptsPairwise(info, add, remove, delete);
  }

  /** Where the database lives unless another location is given. */
  function DefaultLocation(system: string, home: Path, appdata: Option<string>): (p: Path)
    ensures |p| >= 1 && p[|p| - 1] == "where-is"
    ensures system !in {"Mac", "Windows"} ==> p == home + [".config", "where-is"]
  {
    ConfigFolder(system, home, appdata)
  }

  /**
   * The database command. The database is opened (and created when missing)
   * before the options are checked, so a missing file is created even when
   * the options conflict.
   */
  method CliDatabase(location: Path, onDisk: BackingFile, permitted: bool, grub: seq<Template>, zsh: seq<Template>,
                     info: bool, add: bool, remove: bool, delete: bool,
                     vars: map<string, string>, name: string, templates: seq<Template>)
    returns (db: Database?, action: Action)
    ensures action == Dispatch(EvalDbOpts(info, add, remove, delete), db != null, info, add, remove)
    ensures db == null <==> (onDisk.Missing? && !permitted) || (!onDisk.Missing? && Read(onDisk).Failure?)
    ensures db != null ==> fresh(db)
    ensures db != null && action != AddNew && action != RemoveOld ==> db.file == Opened(onDisk, grub, zsh)
    ensures db != null && action == AddNew ==>
              db.file == AddedEntry(Opened(onDisk, grub, zsh).entries, name, templates)
    ensures db != null && action == RemoveOld ==>
              db.file == RemovedEntry(Opened(onDisk, grub, zsh).entries, name, vars)
  {
    db := GetDatabase(location, onDisk, permitted, grub, zsh);
    action := Dispatch(EvalDbOpts(info, add, remove, delete), db != null, info, add, remove);
    if action == AddNew {
      var added := AddEntry(db, name, templates);
    } else if action == RemoveOld {
      RmEntry(db, name, vars);
    }
  }
}
