/**
 * The database: an ordered list of entries kept in a backing file.
 *
 * The backing file is modelled by what reading it yields: no file, a list of
 * entries, or text that does not parse as one. Adding and removing rewrite the
 * whole list; the scoped form creates the file on entry and deletes it on exit.
 */
module Catalog {
  import opened Wrappers
  import opened Entries
  import opened Utils

  /** The errors the database reports. */
  datatype CatalogError =
    | EntryExists       // add: an entry with that name is already stored
    | EntryNotFound     // remove: no stored entry is equal to the one given
    | EntryParse        // the backing file does not hold a valid list of entries
    | FileMissing       // the backing file does not exist
    | PermissionDenied  // the backing file could not be created

  /** What reading the backing file yields. */
  datatype BackingFile = Missing | Stored(entries: seq<Entry>) | Unreadable

  function Names(es: seq<Entry>): (ns: seq<string>)
    ensures |ns| == |es| && forall i :: 0 <= i < |es| ==> ns[i] == es[i].name
    decreases |es|
  {
    if |es| == 0 then [] else [es[0].name] + Names(es[1..])
  }

  /** No two stored entries share a name. */
  predicate UniqueNames(es: seq<Entry>) {
    forall i, j :: 0 <= i < j < |es| ==> es[i].name != es[j].name
  }

  /** The list without its first occurrence of e, as list.remove does it. */
  function RemoveFirst(es: seq<Entry>, e: Entry): (r: seq<Entry>)
    decreases |es|
  {
    if |es| == 0 then []
    else if es[0] == e then es[1..]
    else [es[0]] + RemoveFirst(es[1..], e)
  }

  /** add: refused when the name is taken, otherwise the entry goes at the end. */
  function AddTo(es: seq<Entry>, e: Entry): (r: Result<seq<Entry>, CatalogError>)
    ensures r.Failure? <==> e.name in Names(es)
    ensures r.Failure? ==> r.error == EntryExists
    ensures r.Success? ==> r.value == es + [e]
  {
    if e.name in Names(es) then Failure(EntryExists) else Success(es + [e])
  }

  /** remove: refused when no stored entry equals e, otherwise its first occurrence goes. */
  function RemoveFrom(es: seq<Entry>, e: Entry): (r: Result<seq<Entry>, CatalogError>)
    ensures r.Failure? <==> e !in es
    ensures r.Failure? ==> r.error == EntryNotFound
  {
    if e in es then Success(RemoveFirst(es, e)) else Failure(EntryNotFound)
  }

  /** The entries the backing file holds; a list with a repeated name does not parse. */
  function Read(f: BackingFile): (r: Result<seq<Entry>, CatalogError>)
    ensures r.Success? <==> f.Stored? && UniqueNames(f.entries)
    ensures r.Success? ==> r.value == f.entries
    ensures f.Missing? ==> r == Failure(FileMissing)
  {
    match f
    case Missing => Failure(FileMissing)
    case Unreadable => Failure(EntryParse)
    case Stored(es) => if UniqueNames(es) then Success(es) else Failure(EntryParse)
  }

  /** Writes a changed list back; on failure the file is left as it was. */
  function Rewrite(f: BackingFile, r: Result<seq<Entry>, CatalogError>): (out: (BackingFile, Outcome<CatalogError>))
    ensures out.1.Fail? ==> out.0 == f
  {
    match r
    case Failure(err) => (f, Fail(err))
    case Success(es) => (Stored(es), Pass)
  }

  function AddToFile(f: BackingFile, e: Entry): (BackingFile, Outcome<CatalogError>)
  {
    match Read(f)
    case Failure(err) => (f, Fail(err))
    case Success(es) => Rewrite(f, AddTo(es, e))
  }

  function RemoveFromFile(f: BackingFile, e: Entry): (BackingFile, Outcome<CatalogError>)
  {
    match Read(f)
    case Failure(err) => (f, Fail(err))
    case Success(es) => Rewrite(f, RemoveFrom(es, e))
  }

  /** The entries a new database is seeded with: one for grub, one for zsh. */
  function DefaultEntries(grub: seq<Template>, zsh: seq<Template>): (es: seq<Entry>)
    ensures |es| > 0 && UniqueNames(es)
    ensures forall e :: e in es ==> e.name == "grub" || e.name == "zsh"
  {
    [Entry("grub", grub), Entry("zsh", zsh)]
  }

  // ---------------------------------------------------------------------
  // Properties of the list operations.
  // ---------------------------------------------------------------------

  lemma {:induction false} NamesAppend(es: seq<Entry>, e: Entry)
    ensures Names(es + [e]) == Names(es) + [e.name]
  {
    var l, r := Names(es + [e]), Names(es) + [e.name];
    assert |l| == |r|;
    forall i | 0 <= i < |l| ensures l[i] == r[i] {
      assert (es + [e])[i].name == l[i];
    }
  }

  lemma InNames(es: seq<Entry>, e: Entry)
    requires e in es
    ensures e.name in Names(es)
  {
    var i :| 0 <= i < |es| && es[i] == e;
    assert Names(es)[i] == e.name;
  }

  /** Adding keeps names unique, and the new entry is stored. */
  lemma AddKeepsNamesUnique(es: seq<Entry>, e: Entry)
    requires UniqueNames(es) && AddTo(es, e).Success?
    ensures UniqueNames(AddTo(es, e).value) && e in AddTo(es, e).value
  {
    var r := es + [e];
    forall i, j | 0 <= i < j < |r| ensures r[i].name != r[j].name {
      if j == |es| {
        assert Names(es)[i] == es[i].name;
      }
    }
  }

  /** Once an entry is added, adding any entry with its name fails, whatever its templates. */
  lemma AddSameNameFails(es: seq<Entry>, e: Entry, templates: seq<Template>)
    requires AddTo(es, e).Success?
    ensures AddTo(AddTo(es, e).value, Entry(e.name, templates)) == Failure(EntryExists)
  {
    NamesAppend(es, e);
  }

  /** Removing the last of a list whose other entries differ from it. */
  lemma {:induction false} RemoveFirstAppended(es: seq<Entry>, e: Entry)
    requires e !in es
    ensures RemoveFirst(es + [e], e) == es
    decreases |es|
  {
    if |es| == 0 {
      assert (es + [e])[1..] == [];
    } else {
      assert (es + [e])[1..] == es[1..] + [e];
      assert e !in es[1..];
      RemoveFirstAppended(es[1..], e);
    }
  }

  /** add then remove of the same entry gives back the list as it was before the add. */
  lemma AddThenRemove(es: seq<Entry>, e: Entry)
    requires AddTo(es, e).Success?
    ensures RemoveFrom(AddTo(es, e).value, e) == Success(es)
  {
    if e in es {
      InNames(es, e);
    }
    RemoveFirstAppended(es, e);
  }

  /** Where e first occurs in es. */
  function IndexOf(es: seq<Entry>, e: Entry): (i: nat)
    requires e in es
    ensures i < |es| && es[i] == e && e !in es[..i]
    decreases |es|
  {
    if es[0] == e then 0
    else
      assert e in es[1..];
      var j := IndexOf(es[1..], e);
      assert es[..j + 1] == [es[0]] + es[1..][..j];
      j + 1
  }

  /** RemoveFirst cuts out exactly the first occurrence. */
  lemma {:induction false} RemoveFirstAt(es: seq<Entry>, e: Entry)
    requires e in es
    ensures RemoveFirst(es, e) == es[..IndexOf(es, e)] + es[IndexOf(es, e) + 1..]
    decreases |es|
  {
    if es[0] != e {
      assert e in es[1..];
      RemoveFirstAt(es[1..], e);
      var j := IndexOf(es[1..], e);
      assert IndexOf(es, e) == j + 1;
      assert es[..j + 1] == [es[0]] + es[1..][..j];
      assert es[j + 2..] == es[1..][j + 1..];
    }
  }

  /** After a successful remove in a list with unique names, no entry equal to e is left. */
  lemma RemoveLeavesNone(es: seq<Entry>, e: Entry)
    requires UniqueNames(es) && RemoveFrom(es, e).Success?
    ensures e !in RemoveFrom(es, e).value
    ensures multiset(RemoveFrom(es, e).value) == multiset(es) - multiset{e}
  {
    var i := IndexOf(es, e);
    RemoveFirstAt(es, e);
    forall k | i < k < |es| ensures es[k].name != e.name {
      assert es[i].name != es[k].name;
    }
    assert e !in es[i + 1..];
    assert es == es[..i] + [e] + es[i + 1..];
  }

  // ---------------------------------------------------------------------
  // The database object.
  // ---------------------------------------------------------------------

  class Database {
    /** Where the backing file lives. */
    const location: Path
    /** What create() writes into a new backing file. */
    const seed: seq<Entry>
    /** The backing file as reading it yields. */
    var file: BackingFile

    /** A handle on the backing file at location, in the state onDisk. */
    constructor(location: Path, onDisk: BackingFile, grub: seq<Template>, zsh: seq<Template>)
      ensures this.location == location && file == onDisk && seed == DefaultEntries(grub, zsh)
    {
      this.location := location;
      this.seed := DefaultEntries(grub, zsh);
      file := onDisk;
    }

    /** Whether the backing file is present. */
    function Exists(): (b: bool)
      reads this
      ensures b <==> !file.Missing?
    {
      file != Missing
    }

    /** The entries property: the list read from the backing file. */
    function Entries(): (r: Result<seq<Entry>, CatalogError>)
      reads this
      ensures r.Success? ==> file == Stored(r.value) && UniqueNames(r.value)
      ensures r.Failure? ==> r.error != EntryExists && r.error != EntryNotFound
    {
      Read(file)
    }

    /** Writes the seed entries to a new backing file, unless that is not permitted. */
    method Create(permitted: bool) returns (r: Outcome<CatalogError>)
      modifies this
      ensures permitted ==> r == Pass && file == Stored(seed)
      ensures !permitted ==> r == Fail(PermissionDenied) && file == old(file)
    {
      if !permitted {
        return Fail(PermissionDenied);
      }
      file := Stored(seed);
      r := Pass;
    }

    /** add, and the += operator, which behaves the same way. */
    method Add(e: Entry) returns (r: Outcome<CatalogError>)
      modifies this
      ensures (file, r) == AddToFile(old(file), e)
    {
      var read := Read(file);
      if read.Failure? {
        return Fail(read.error);
      }
      if e.name in Names(read.value) {
        return Fail(EntryExists);
      }
      file := Stored(read.value + [e]);
      r := Pass;
    }

    /** remove, and the -= operator, which behaves the same way. */
    method Remove(e: Entry) returns (r: Outcome<CatalogError>)
      modifies this
      ensures (file, r) == RemoveFromFile(old(file), e)
    {
      var read := Read(file);
      if read.Failure? {
        return Fail(read.error);
      }
      if e !in read.value {
        return Fail(EntryNotFound);
      }
      file := Stored(RemoveFirst(read.value, e));
      r := Pass;
    }

    /** Entering the scoped form: the backing file is created if it is absent. */
    method Enter(permitted: bool) returns (r: Outcome<CatalogError>)
      modifies this
      ensures old(file).Missing? ==> (permitted ==> r == Pass && file == Stored(seed)) &&
                                     (!permitted ==> r == Fail(PermissionDenied) && file == Missing)
      ensures !old(file).Missing? ==> r == Pass && file == old(file)
    {
      if !Exists() {
        r := Create(permitted);
      } else {
        r := Pass;
      }
    }

    /** Leaving the scoped form: the backing file is deleted. */
    method Exit()
      modifies this
      ensures file == Missing && !Exists()
    {
      file := Missing;
    }
  }

  // ---------------------------------------------------------------------
  // The test suite's scenarios, stated as methods over the model.
  // ---------------------------------------------------------------------

  /**
   * A scoped database at a fresh location: inside the scope it keeps its
   * location, its file exists and exists() says so, its entries are non-empty
   * and named "grub" or "zsh"; after the scope the file is gone.
   */
  method ScopedDatabase(location: Path, grub: seq<Template>, zsh: seq<Template>)
    returns (locationInside: Path, existsInside: bool, entries: Result<seq<Entry>, CatalogError>, existsAfter: bool)
    ensures locationInside == location && existsInside
    ensures entries.Success? && |entries.value| > 0
    ensures forall e :: e in entries.value ==> e.name == "grub" || e.name == "zsh"
    ensures !existsAfter
  {
    var db := new Database(location, Missing, grub, zsh);
    var entered := db.Enter(true);
    locationInside := db.location;
    existsInside := db.Exists();
    entries := db.Entries();
    db.Exit();
    existsAfter := db.Exists();
  }

  lemma DefaultNames(grub: seq<Template>, zsh: seq<Template>)
    ensures Names(DefaultEntries(grub, zsh)) == ["grub", "zsh"]
  {
    assert DefaultEntries(grub, zsh)[1..] == [Entry("zsh", zsh)];
  }

  /** The three add calls of the add scenario, on the backing file. */
  lemma AddTwiceSteps(seed: seq<Entry>, e: Entry, f: Entry)
    requires UniqueNames(seed) && e.name !in Names(seed) && f.name !in Names(seed) && e.name != f.name
    ensures AddToFile(Stored(seed), e) == (Stored(seed + [e]), Pass)
    ensures AddToFile(Stored(seed + [e]), f) == (Stored(seed + [e] + [f]), Pass)
    ensures AddToFile(Stored(seed + [e] + [f]), e) == (Stored(seed + [e] + [f]), Fail(EntryExists))
  {
    AddKeepsNamesUnique(seed, e);
    NamesAppend(seed, e);
    AddKeepsNamesUnique(seed + [e], f);
    NamesAppend(seed + [e], f);
  }

  /** The add and remove calls of the remove scenario, on the backing file. */
  lemma AddRemoveSteps(seed: seq<Entry>, e: Entry)
    requires UniqueNames(seed) && e.name !in Names(seed)
    ensures AddToFile(Stored(seed), e) == (Stored(seed + [e]), Pass)
    ensures RemoveFromFile(Stored(seed + [e]), e) == (Stored(seed), Pass)
    ensures e !in seed
    ensures RemoveFromFile(Stored(seed), e) == (Stored(seed), Fail(EntryNotFound))
  {
    AddKeepsNamesUnique(seed, e);
    AddThenRemove(seed, e);
    if e in seed {
      InNames(seed, e);
    }
  }

  /**
   * Adding two entries with new, different names stores both; adding the
   * first one again fails with EntryExists.
   */
  method AddToDatabase(location: Path, grub: seq<Template>, zsh: seq<Template>, e: Entry, f: Entry)
    returns (firstStored: bool, secondStored: bool, again: Outcome<CatalogError>)
    requires e.name != f.name && e.name !in ["grub", "zsh"] && f.name !in ["grub", "zsh"]
    ensures firstStored && secondStored && again == Fail(EntryExists)
  {
    var seed := DefaultEntries(grub, zsh);
    DefaultNames(grub, zsh);
    AddTwiceSteps(seed, e, f);
    var db := new Database(location, Missing, grub, zsh);
    var entered := db.Enter(true);
    var added := db.Add(e);
    var es := db.Entries();
    firstStored := es.Success? && e in es.value;
    added := db.Add(f);
    es := db.Entries();
    secondStored := es.Success? && f in es.value;
    again := db.Add(e);
    db.Exit();
  }

  /**
   * An added entry is gone after remove and after -=; removing it once more
   * fails with EntryNotFound.
   */
  method RemoveFromDatabase(location: Path, grub: seq<Template>, zsh: seq<Template>, e: Entry)
    returns (goneAfterRemove: bool, goneAfterOperator: bool, again: Outcome<CatalogError>)
    requires e.name !in ["grub", "zsh"]
    ensures goneAfterRemove && goneAfterOperator && again == Fail(EntryNotFound)
  {
    var seed := DefaultEntries(grub, zsh);
    DefaultNames(grub, zsh);
    AddRemoveSteps(seed, e);
    var db := new Database(location, Missing, grub, zsh);
    var entered := db.Enter(true);
    var r := db.Add(e);
    r := db.Remove(e);
    var es := db.Entries();
    goneAfterRemove := es.Success? && e !in es.value;
    r := db.Add(e);
    r := db.Remove(e);
    es := db.Entries();
    goneAfterOperator := es.Success? && e !in es.value;
    again := db.Remove(e);
    db.Exit();
  }
}
