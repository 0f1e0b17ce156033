/** `SecureVault`: the in-memory list of entries, the note serial counter and
    the data directory, modelled as a map from (category directory, file name)
    to file contents. Every mutation writes through to the directory. */
module Vault {
  import opened Bytes
  import opened Decimal
  import opened Sanitize
  import opened Entries
  import opened Records

  /** The master password `auth` compares against. */
  const MASTER: Bytes := Ascii("ilovetohatethat")
  const TXT: Bytes := Ascii(".txt")
  const NOTE_PREFIX: Bytes := Ascii("note_")

  /** The three sub-directories of `vault_data`. */
  datatype Category = Passwords | BackupCodes | Notes

  type FileName = Bytes
  type Path = (Category, FileName)
  type Disk = map<Path, Bytes>

  datatype Vault = Vault(items: seq<Entry>, noteCounter: int, disk: Disk)

  /** A newly constructed vault over an existing data directory. */
  function Fresh(disk: Disk): (v: Vault)
    ensures v.items == [] && v.noteCounter == 1 && v.disk == disk
  {
    Vault([], 1, disk)
  }

  function CategoryOf(kind: Kind): Category
  {
    match kind
    case PasswordKind => Passwords
    case BackupCodeKind => BackupCodes
    case QuickNoteKind => Notes
  }

  /** `pwPath`, `bcPath` and `ntPath`: the file an identifier of a kind
      lives in. */
  function FilePath(kind: Kind, id: Bytes): (p: Path)
    ensures p.0 == CategoryOf(kind)
    ensures kind != QuickNoteKind ==> p.1 == SafeFile(id) + TXT
    ensures kind == QuickNoteKind ==> p.1 == NOTE_PREFIX + SafeFile(id) + TXT
  {
    match kind
    case PasswordKind => (Passwords, SafeFile(id) + TXT)
    case BackupCodeKind => (BackupCodes, SafeFile(id) + TXT)
    case QuickNoteKind => (Notes, NOTE_PREFIX + SafeFile(id) + TXT)
  }

  /** The file an entry is saved to. */
  function Location(e: Entry): Path
  {
    FilePath(KindOf(e), Identifier(e))
  }

  /** The bytes the matching `save*` writes for an entry. */
  function RecordOf(e: Entry): Bytes
  {
    match e
    case Password(_, _, _, _, _) => PasswordRecord(e)
    case BackupCode(_, _, _, _, _, _) => BackupRecord(e)
    case QuickNote(_, _, _, _) => NoteRecord(e)
  }

  // ---------- access checks ----------

  function Auth(p: Bytes): (ok: bool)
    ensures ok <==> p == MASTER
  {
    p == MASTER
  }

  function ValidKey(k: Bytes): (ok: bool)
    ensures ok <==> k == KEY
  {
    k == KEY
  }

  /** The two fixed secrets are different: the master password opens no
      obscured entry and the decryption key does not log in. */
  lemma SecretsDiffer()
    ensures !Auth(KEY) && !ValidKey(MASTER)
  {
    assert MASTER[0] != KEY[0];
  }

  /** `validKey` is exactly the gate of every obscured entry: a key opens an
      obscured entry if and only if the vault accepts it. */
  lemma ValidKeyIsTheGate(e: Entry, k: Bytes)
    requires WellFormed(e) && e.enc
    ensures ValidKey(k) <==> DecryptedRows(e, k) == PlainRows(e)
    ensures !ValidKey(k) <==> DecryptedRows(e, k) == ERROR_ROWS
  {
    LabelsDistinct();
    assert PlainRows(e) != ERROR_ROWS by {
      if e.QuickNote? {
        assert PlainRows(e)[0].field != ERROR_ROWS[0].field;
      }
    }
  }

  // ---------- saving ----------

  /** `savePassword`, `saveBackup` and `saveNote` together: each ignores an
      entry of another kind; the matching one (over)writes the entry's file
      and touches no other. */
  function Save(d: Disk, kind: Kind, e: Entry): (r: Disk)
    ensures KindOf(e) != kind ==> r == d
    ensures KindOf(e) == kind ==> r.Keys == d.Keys + {Location(e)} && r[Location(e)] == RecordOf(e)
    ensures forall p :: p in d && p != Location(e) ==> p in r && r[p] == d[p]
  {
    if KindOf(e) != kind then d else d[Location(e) := RecordOf(e)]
  }

  /** The file an entry was saved to holds the entry's plaintext: the round
      trip from `save*` back through the loader of its category. */
  predicate Persisted(d: Disk, e: Entry)
  {
    Location(e) in d
    && match e
       case Password(_, _, _, _, _) =>
         var l := LoadPasswordFile(d[Location(e)]);
         l.Some? && DecryptedRows(l.value, KEY) == PlainRows(e)
       case BackupCode(_, _, _, _, _, _) =>
         var l := LoadBackupFile(d[Location(e)]);
         l.Some? && DecryptedRows(l.value, KEY) == PlainRows(e)
       case QuickNote(_, _, _, _) =>
         NoteIdNumeric(d[Location(e)]) &&
         var l := LoadNoteFile(d[Location(e)]);
         l.Some? && DecryptedRows(l.value, KEY) == PlainRows(e)
  }

  /** The conditions under which a record file reads back: a non-empty,
      single-line identifier and username, a tab-free secret, an `int` serial. */
  predicate Storable(e: Entry)
  {
    match e
    case Password(service, user, pwd, _, _) =>
      service != [] && NEWLINE !in service && NEWLINE !in user && TAB !in pwd
    case BackupCode(account, user, code, _, _, _) =>
      account != [] && NEWLINE !in account && NEWLINE !in user && TAB !in code
    case QuickNote(serial, note, _, _) =>
      INT_MIN <= serial <= INT_MAX && TAB !in note
  }

  /** Write-through: after saving a storable entry its file reads back to
      the entry's plaintext. */
  lemma SaveWritesThrough(d: Disk, e: Entry)
    ensures WellFormed(e) && Storable(e) ==> Persisted(Save(d, KindOf(e), e), e)
  {
    if WellFormed(e) && Storable(e) {
      var d' := Save(d, KindOf(e), e);
      assert d'[Location(e)] == RecordOf(e);
      match e
      case Password(_, _, _, _, _) =>
        PasswordRoundTrip(e);
        assert RecordOf(e) == PasswordRecord(e);
      case BackupCode(_, _, _, _, _, _) =>
        BackupRoundTrip(e);
        assert RecordOf(e) == BackupRecord(e);
      case QuickNote(_, _, _, _) =>
        NoteRoundTrip(e);
        assert RecordOf(e) == NoteRecord(e);
    }
  }

  // ---------- adding ----------

  /** `addPassword`: append, then save. */
  function AddPassword(v: Vault, service: Bytes, user: Bytes, pwd: Bytes, enc: bool): (r: Vault)
    ensures |r.items| == |v.items| + 1 && r.items[..|v.items|] == v.items
    ensures r.items[|v.items|] == NewPassword(service, user, pwd, enc)
    ensures r.noteCounter == v.noteCounter
    ensures r.disk.Keys == v.disk.Keys + {FilePath(PasswordKind, service)}
    ensures forall p :: p in v.disk && p != FilePath(PasswordKind, service) ==> r.disk[p] == v.disk[p]
    ensures Location(r.items[|v.items|]) in r.disk && r.disk[Location(r.items[|v.items|])] == RecordOf(r.items[|v.items|])
    ensures Storable(r.items[|v.items|]) ==> Persisted(r.disk, r.items[|v.items|])
  {
    var e := NewPassword(service, user, pwd, enc);
    SaveWritesThrough(v.disk, e);
    Vault(v.items + [e], v.noteCounter, Save(v.disk, PasswordKind, e))
  }

  /** `addBackup`: append, then save. */
  function AddBackup(v: Vault, account: Bytes, user: Bytes, code: Bytes, enc: bool): (r: Vault)
    ensures |r.items| == |v.items| + 1 && r.items[..|v.items|] == v.items
    ensures r.items[|v.items|] == NewBackupCode(account, user, code, enc)
    ensures r.noteCounter == v.noteCounter
    ensures r.disk.Keys == v.disk.Keys + {FilePath(BackupCodeKind, account)}
    ensures forall p :: p in v.disk && p != FilePath(BackupCodeKind, account) ==> r.disk[p] == v.disk[p]
    ensures Location(r.items[|v.items|]) in r.disk && r.disk[Location(r.items[|v.items|])] == RecordOf(r.items[|v.items|])
    ensures Storable(r.items[|v.items|]) ==> Persisted(r.disk, r.items[|v.items|])
  {
    var e := NewBackupCode(account, user, code, enc);
    SaveWritesThrough(v.disk, e);
    Vault(v.items + [e], v.noteCounter, Save(v.disk, BackupCodeKind, e))
  }

  /** `addNote`: the note takes the counter's value as its serial, the counter
      moves on by one, then the note is saved. */
  function AddNote(v: Vault, text: Bytes, enc: bool): (r: Vault)
    ensures |r.items| == |v.items| + 1 && r.items[..|v.items|] == v.items
    ensures r.items[|v.items|] == NewQuickNote(v.noteCounter, text, enc)
    ensures Identifier(r.items[|v.items|]) == IntToString(v.noteCounter)
    ensures r.noteCounter == v.noteCounter + 1
    ensures r.disk.Keys == v.disk.Keys + {FilePath(QuickNoteKind, IntToString(v.noteCounter))}
    ensures forall p :: p in v.disk && p != FilePath(QuickNoteKind, IntToString(v.noteCounter)) ==> r.disk[p] == v.disk[p]
    ensures Location(r.items[|v.items|]) in r.disk && r.disk[Location(r.items[|v.items|])] == RecordOf(r.items[|v.items|])
    ensures Storable(r.items[|v.items|]) ==> Persisted(r.disk, r.items[|v.items|])
  {
    var e := NewQuickNote(v.noteCounter, text, enc);
    SaveWritesThrough(v.disk, e);
    Vault(v.items + [e], v.noteCounter + 1, Save(v.disk, QuickNoteKind, e))
  }

  // ---------- lookup by identifier ----------

  predicate Matches(e: Entry, kind: Kind, id: Bytes)
  {
    KindOf(e) == kind && Identifier(e) == id
  }

  /** Item `i` is the first item of the kind with the identifier. */
  predicate FirstMatching(items: seq<Entry>, kind: Kind, id: Bytes, i: int)
  {
    0 <= i < |items| && Matches(items[i], kind, id)
    && forall j :: 0 <= j < i ==> !Matches(items[j], kind, id)
  }

  /** The position the source's `for` loops stop at: the first match, or
      `|items|` when nothing matches. */
  function FindFirst(items: seq<Entry>, kind: Kind, id: Bytes): (i: nat)
    ensures i <= |items|
    ensures i < |items| ==> FirstMatching(items, kind, id, i)
    ensures i == |items| ==> forall j :: 0 <= j < |items| ==> !Matches(items[j], kind, id)
  {
    if items == [] then 0
    else if Matches(items[0], kind, id) then 0
    else 1 + FindFirst(items[1..], kind, id)
  }

  /** `savePasswordByService`, `saveBackupByAccount`, `saveNoteById`:
      re-save the first entry of the kind with the identifier; nothing
      happens when there is none. Memory never changes. */
  function SaveById(v: Vault, kind: Kind, id: Bytes): (r: Vault)
    ensures r.items == v.items && r.noteCounter == v.noteCounter
    ensures (forall j :: 0 <= j < |v.items| ==> !Matches(v.items[j], kind, id)) ==> r.disk == v.disk
    ensures forall i :: FirstMatching(v.items, kind, id, i) ==>
      r.disk.Keys == v.disk.Keys + {FilePath(kind, id)} && r.disk[FilePath(kind, id)] == RecordOf(v.items[i])
    ensures forall i :: FirstMatching(v.items, kind, id, i) && WellFormed(v.items[i]) && Storable(v.items[i]) ==>
      Persisted(r.disk, v.items[i])
    ensures forall i, p :: FirstMatching(v.items, kind, id, i) && p in v.disk && p != FilePath(kind, id) ==>
      p in r.disk && r.disk[p] == v.disk[p]
  {
    var i := FindFirst(v.items, kind, id);
    if i == |v.items| then v
    else
      SaveWritesThrough(v.disk, v.items[i]);
      v.(disk := Save(v.disk, kind, v.items[i]))
  }

  /** An edit made through the list `all()` hands out: item `i` is replaced
      by its edited self; the directory is not touched until a `save*By*`. */
  function EditItem(v: Vault, i: nat, key: Bytes, v1: Bytes, v2: Bytes): (r: Vault)
    requires i < |v.items|
    ensures |r.items| == |v.items| && r.noteCounter == v.noteCounter && r.disk == v.disk
    ensures r.items[i] == Edit(v.items[i], key, v1, v2)
    ensures forall j :: 0 <= j < |v.items| && j != i ==> r.items[j] == v.items[j]
  {
    v.(items := v.items[i := Edit(v.items[i], key, v1, v2)])
  }

  /** The edit-then-save sequence of the detail screen writes the new
      password through: its file reads back to the new value. */
  lemma EditThenSaveWritesThrough(v: Vault, i: nat, v1: Bytes)
    requires i < |v.items| && v.items[i].Password? && WellFormed(v.items[i])
    requires FirstMatching(v.items, PasswordKind, v.items[i].service, i)
    requires Storable(v.items[i]) && TAB !in v1
    ensures var r := SaveById(EditItem(v, i, KEY, v1, []), PasswordKind, v.items[i].service);
      var l := LoadPasswordFile(r.disk[FilePath(PasswordKind, v.items[i].service)]);
      l.Some? && DecryptedRows(l.value, KEY) == [Row(USERNAME_LABEL, v.items[i].user), Row(PASSWORD_LABEL, v1)]
  {
    var e := v.items[i];
    var w := EditItem(v, i, KEY, v1, []);
    var e' := w.items[i];
    assert FirstMatching(w.items, PasswordKind, e.service, i);
    assert Storable(e');
    var r := SaveById(w, PasswordKind, e.service);
    assert Persisted(r.disk, e');
  }

  // ---------- deleting ----------

  /** `deletePasswordByService`, `deleteBackupByAccount`, `deleteNoteById`:
      remove the first entry of the kind with the identifier and the file the
      identifier names, and answer true; with no such entry answer false and
      change nothing. */
  function Delete(v: Vault, kind: Kind, id: Bytes): (r: (Vault, bool))
    ensures r.1 <==> exists j :: 0 <= j < |v.items| && Matches(v.items[j], kind, id)
    ensures !r.1 ==> r.0 == v
    ensures forall i :: FirstMatching(v.items, kind, id, i) ==>
      r.0.items == v.items[..i] + v.items[i + 1..]
    ensures r.1 ==> r.0.disk == v.disk - {FilePath(kind, id)} && FilePath(kind, id) !in r.0.disk
    ensures r.0.noteCounter == v.noteCounter
  {
    var i := FindFirst(v.items, kind, id);
    if i == |v.items| then (v, false)
    else (Vault(v.items[..i] + v.items[i + 1..], v.noteCounter, v.disk - {FilePath(kind, id)}), true)
  }

  /** Every file of the directory that loads at
      all is the file its entry would be saved to. */
  predicate FilesInPlace(d: Disk)
  {
    forall p :: p in d && LoadFile(p.0, d[p]).Some? ==> Location(LoadFile(p.0, d[p]).value) == p
  }

  /** `save*` of a storable entry keeps every file in place. */
  lemma SaveKeepsFilesInPlace(d: Disk, kind: Kind, e: Entry)
    requires FilesInPlace(d) && WellFormed(e) && Storable(e)
    ensures FilesInPlace(Save(d, kind, e))
  {
    if KindOf(e) == kind {
      var d' := Save(d, kind, e);
      LoadFileOfRecord(e);
      assert Location(Reloaded(e)) == Location(e);
      forall p | p in d' && LoadFile(p.0, d'[p]).Some?
        ensures Location(LoadFile(p.0, d'[p]).value) == p
      {
        if p == Location(e) {
          assert d'[p] == RecordOf(e);
        } else {
          assert p in d && d'[p] == d[p];
        }
      }
    }
  }

  /** `delete*` keeps every file in place. */
  lemma DeleteKeepsFilesInPlace(v: Vault, kind: Kind, id: Bytes)
    requires FilesInPlace(v.disk)
    ensures FilesInPlace(Delete(v, kind, id).0.disk)
  {
    var d' := Delete(v, kind, id).0.disk;
    forall p | p in d' && LoadFile(p.0, d'[p]).Some?
      ensures Location(LoadFile(p.0, d'[p]).value) == p
    {
      assert p in v.disk && d'[p] == v.disk[p];
    }
  }

  /** When every file is in place, every entry a load yields has its file
      among the directory's files. */
  lemma LoadedLocated(d: Disk, c: Category, names: seq<FileName>, j: nat)
    requires FilesInPlace(d) && IsListing(d, c, names)
    requires j < |Loaded(c, Contents(d, c, names))|
    ensures Location(Loaded(c, Contents(d, c, names))[j]) in d
  {
    var cs := Contents(d, c, names);
    LoadedFrom(c, cs, j);
    var k :| 0 <= k < |cs| && LoadFile(c, cs[k]) == Some(Loaded(c, cs)[j]);
    var p := (c, names[k]);
    assert p in d && cs[k] == d[p];
  }

  /** A deleted identifier stays deleted: after a successful `delete*` on a
      directory with every file in place, no listing order of the category loads an entry
      of that kind and identifier again. */
  lemma DeletedStaysGone(v: Vault, kind: Kind, id: Bytes)
    requires FilesInPlace(v.disk)
    ensures var r := Delete(v, kind, id); var c := CategoryOf(kind);
      r.1 ==> forall names :: IsListing(r.0.disk, c, names) ==>
        forall j :: 0 <= j < |Loaded(c, Contents(r.0.disk, c, names))| ==>
          !Matches(Loaded(c, Contents(r.0.disk, c, names))[j], kind, id)
  {
    var r := Delete(v, kind, id);
    var c := CategoryOf(kind);
    if r.1 {
      DeleteKeepsFilesInPlace(v, kind, id);
      forall names, j | IsListing(r.0.disk, c, names) && 0 <= j < |Loaded(c, Contents(r.0.disk, c, names))|
        ensures !Matches(Loaded(c, Contents(r.0.disk, c, names))[j], kind, id)
      {
        LoadedLocated(r.0.disk, c, names, j);
      }
    }
  }

  /** Only the first match goes: a second entry of the kind with the same
      identifier stays in memory although its file is gone. */
  lemma DeleteKeepsLaterDuplicates(v: Vault, kind: Kind, id: Bytes, i: nat, k: nat)
    requires FirstMatching(v.items, kind, id, i) && i < k < |v.items| && Matches(v.items[k], kind, id)
    ensures var r := Delete(v, kind, id).0;
      r.items[k - 1] == v.items[k] && Matches(r.items[k - 1], kind, id) && FilePath(kind, id) !in r.disk
  {
  }

  // ---------- loading ----------

  /** `names` is an order `directory_iterator` may produce for the category:
      every file of the category exactly once. */
  predicate IsListing(d: Disk, c: Category, names: seq<FileName>)
  {
    && (forall i :: 0 <= i < |names| ==> (c, names[i]) in d)
    && (forall i, j :: 0 <= i < j < |names| ==> names[i] != names[j])
    && (forall p :: p in d && p.0 == c ==> p.1 in names)
  }

  /** The contents of the listed files, in listing order. */
  function Contents(d: Disk, c: Category, names: seq<FileName>): (cs: seq<Bytes>)
    requires forall i :: 0 <= i < |names| ==> (c, names[i]) in d
    ensures |cs| == |names|
    ensures forall i :: 0 <= i < |names| ==> cs[i] == d[(c, names[i])]
  {
    seq(|names|, i requires 0 <= i < |names| => d[(c, names[i])])
  }

  /** What `stoi` needs of the category's files (only notes are parsed). */
  predicate Loadable(c: Category, contents: seq<Bytes>)
  {
    c == Notes ==> forall i {:trigger NoteIdNumeric(contents[i])} :: 0 <= i < |contents| ==> NoteIdNumeric(contents[i])
  }

  /** The per-file step of `loadPasswords`, `loadBackupCodes` or `loadNotes`.
      A note file whose NOTE_ID `stoi` rejects makes the source throw out of
      `loadNotes`; `LoadCategory` requires that no such file is listed, so the
      `None` given for one here is never used by it. */
  function LoadFile(c: Category, content: Bytes): (r: Option<Entry>)
    ensures r.Some? ==> r.value.enc && WellFormed(r.value) && CategoryOf(KindOf(r.value)) == c
    ensures r.Some? ==> Identifier(r.value) != []
    ensures r.Some? ==> (r.value.QuickNote? <==> c == Notes)
  {
    match c
    case Passwords => LoadPasswordFile(content)
    case BackupCodes => LoadBackupFile(content)
    case Notes => if NoteIdNumeric(content) then LoadNoteFile(content) else None
  }

  /** The skip rule of the three loaders: a file contributes nothing exactly
      when its primary key (SERVICE, ACCOUNT or NOTE_ID) is missing or empty,
      or, for a note, `stoi` rejects it; otherwise the entry's identifier is
      that key's value. */
  lemma LoadFileSkips(c: Category, content: Bytes)
    ensures var r := LoadFile(c, content); var m := ParseRecord(content);
      && (c == Passwords ==> (r.None? <==> Lookup(m, SERVICE_KEY) == []))
      && (c == BackupCodes ==> (r.None? <==> Lookup(m, ACCOUNT_KEY) == []))
      && (c == Notes ==> (r.None? <==> Lookup(m, NOTE_ID_KEY) == [] || !NoteIdNumeric(content)))
      && (r.Some? && c != Notes ==> Identifier(r.value) == Lookup(m, if c == Passwords then SERVICE_KEY else ACCOUNT_KEY))
      && (r.Some? && c == Notes ==> r.value.serial == StoI(Lookup(m, NOTE_ID_KEY)).value)
  {
  }

  /** The entry a file contributes, if any. */
  function Found(o: Option<Entry>): seq<Entry>
  {
    if o.Some? then [o.value] else []
  }

  /** The entries a scan over `contents` appends, in scan order. */
  function Loaded(c: Category, contents: seq<Bytes>): (r: seq<Entry>)
    ensures |r| <= |contents|
    ensures forall j :: 0 <= j < |r| ==> r[j].enc && WellFormed(r[j]) && CategoryOf(KindOf(r[j])) == c
  {
    if contents == [] then []
    else
      var init := contents[..|contents| - 1];
      Loaded(c, init) + Found(LoadFile(c, contents[|contents| - 1]))
  }

  /** One more file extends the scan by that file's entry. */
  lemma LoadedSnoc(c: Category, contents: seq<Bytes>, i: nat)
    requires i < |contents|
    ensures Loaded(c, contents[..i + 1]) == Loaded(c, contents[..i]) + Found(LoadFile(c, contents[i]))
  {
    assert contents[..i + 1][..i] == contents[..i];
  }

  lemma CounterSnoc(counter: int, loaded: seq<Entry>, found: seq<Entry>)
    requires |found| <= 1
    ensures CounterAfter(counter, loaded + found) ==
      if found == [] then CounterAfter(counter, loaded) else Bump(CounterAfter(counter, loaded), found[0])
  {
    if found != [] {
      assert (loaded + found)[..|loaded|] == loaded;
    } else {
      assert loaded + found == loaded;
    }
  }

  /** One turn of the scan loop: fold the entry one file yields, if any, into
      the list, the count and (for notes) the counter. */
  method ScanFile(c: Category, loaded: Option<Entry>, items: seq<Entry>, counter: int, count: int)
    returns (items': seq<Entry>, counter': int, count': int)
    requires loaded.Some? ==> (loaded.value.QuickNote? <==> c == Notes)
    ensures items' == items + Found(loaded)
    ensures count' == count + |Found(loaded)|
    ensures counter' == if loaded.None? then counter else Bump(counter, loaded.value)
  {
    items', counter', count' := items, counter, count;
    if loaded.Some? {
      var e := loaded.value;
      items' := items + [e];
      count' := count + 1;
      if c == Notes && e.serial + 1 > counter {
        counter' := e.serial + 1;
      }
    }
  }

  /** `noteCounter = max(noteCounter, id + 1)` for one loaded entry. */
  function Bump(counter: int, e: Entry): int
  {
    if e.QuickNote? && e.serial + 1 > counter then e.serial + 1 else counter
  }

  /** The counter after bumping it for every loaded entry, in order. It never
      goes down, and entries other than notes leave it alone. */
  function CounterAfter(counter: int, loaded: seq<Entry>): (r: int)
    ensures r >= counter
    ensures (forall j :: 0 <= j < |loaded| ==> !loaded[j].QuickNote?) ==> r == counter
  {
    if loaded == [] then counter
    else Bump(CounterAfter(counter, loaded[..|loaded| - 1]), loaded[|loaded| - 1])
  }

  /** The counter after a load does not depend on the scan order: it is the
      larger of its old value and one past the largest loaded serial. */
  lemma {:induction false} CounterAfterIsMax(counter: int, loaded: seq<Entry>)
    ensures CounterAfter(counter, loaded) >= counter
    ensures forall j :: 0 <= j < |loaded| && loaded[j].QuickNote? ==>
      CounterAfter(counter, loaded) > loaded[j].serial
    ensures CounterAfter(counter, loaded) == counter
      || exists j :: 0 <= j < |loaded| && loaded[j].QuickNote? && CounterAfter(counter, loaded) == loaded[j].serial + 1
  {
    if loaded != [] {
      var init := loaded[..|loaded| - 1];
      CounterAfterIsMax(counter, init);
      var c := CounterAfter(counter, init);
      if c != counter {
        var j :| 0 <= j < |init| && init[j].QuickNote? && c == init[j].serial + 1;
        assert loaded[j] == init[j];
      }
      forall j | 0 <= j < |init| && loaded[j].QuickNote?
        ensures CounterAfter(counter, loaded) > loaded[j].serial
      {
        assert loaded[j] == init[j];
      }
    }
  }

  /** What one more file does to the scan's entries and counter. */
  lemma ScanStep(c: Category, contents: seq<Bytes>, i: nat, counter0: int, items0: seq<Entry>,
                 before: seq<Entry>, loaded: Option<Entry>)
    requires i < |contents| && before == Loaded(c, contents[..i]) && loaded == LoadFile(c, contents[i])
    ensures Loaded(c, contents[..i + 1]) == before + Found(loaded)
    ensures items0 + (before + Found(loaded)) == (items0 + before) + Found(loaded)
    ensures CounterAfter(counter0, Loaded(c, contents[..i + 1])) ==
      if loaded.None? then CounterAfter(counter0, before) else Bump(CounterAfter(counter0, before), loaded.value)
  {
    LoadedSnoc(c, contents, i);
    CounterSnoc(counter0, before, Found(loaded));
    ConcatAssoc(items0, before, Found(loaded));
  }

  /** The loop of the loaders over the contents of the listed files. */
  method Scan(c: Category, contents: seq<Bytes>, items0: seq<Entry>, counter0: int)
    returns (items: seq<Entry>, counter: int, count: int)
    ensures items == items0 + Loaded(c, contents)
    ensures count == |items| - |items0|
    ensures counter == CounterAfter(counter0, Loaded(c, contents))
  {
    items, counter := items0, counter0;
    count := 0;
    var i := 0;
    ghost var done: seq<Entry> := [];
    assert contents[..0] == [];
    while i < |contents|
      invariant 0 <= i <= |contents|
      invariant done == Loaded(c, contents[..i])
      invariant items == items0 + done
      invariant count == |items| - |items0|
      invariant counter == CounterAfter(counter0, done)
    {
      var loaded := LoadFile(c, contents[i]);
      ScanStep(c, contents, i, counter0, items0, done, loaded);
      items, counter, count := ScanFile(c, loaded, items, counter, count);
      done := done + Found(loaded);
      i := i + 1;
    }
    assert contents[..|contents|] == contents;
  }

  /** `loadPasswords`, `loadBackupCodes` and `loadNotes`: scan the category's
      files in listing order, append an obscured entry for every file whose
      primary key is present and non-empty, and for notes raise the counter
      past each loaded serial. Returns the number of entries appended; an
      absent or empty directory gives zero. */
  method LoadCategory(v: Vault, c: Category, names: seq<FileName>) returns (r: Vault, count: int)
    requires IsListing(v.disk, c, names)
    requires Loadable(c, Contents(v.disk, c, names))
    ensures r.disk == v.disk
    ensures r.items == v.items + Loaded(c, Contents(v.disk, c, names))
    ensures count == |r.items| - |v.items| && 0 <= count <= |names|
    ensures r.noteCounter == CounterAfter(v.noteCounter, Loaded(c, Contents(v.disk, c, names)))
    ensures r.noteCounter >= v.noteCounter
    ensures c != Notes ==> r.noteCounter == v.noteCounter
  {
    var contents := Contents(v.disk, c, names);
    var items, counter;
    items, counter, count := Scan(c, contents, v.items, v.noteCounter);
    r := Vault(items, counter, v.disk);
    if c != Notes {
      OnlyNotesBump(v.noteCounter, c, contents);
    }
  }

  /** Loading passwords or backup codes leaves the note counter alone. */
  lemma OnlyNotesBump(counter: int, c: Category, contents: seq<Bytes>)
    requires c != Notes
    ensures CounterAfter(counter, Loaded(c, contents)) == counter
  {
    var loaded := Loaded(c, contents);
    forall j | 0 <= j < |loaded|
      ensures !loaded[j].QuickNote?
    {
      assert CategoryOf(KindOf(loaded[j])) == c;
    }
  }

  lemma ConcatAssoc(a: seq<Entry>, b: seq<Entry>, c: seq<Entry>)
    ensures (a + b) + c == a + (b + c)
  {
  }

  /** A file that loads contributes its entry to the scan. */
  lemma {:induction false} LoadedContains(c: Category, contents: seq<Bytes>, k: nat)
    requires k < |contents|
    requires LoadFile(c, contents[k]).Some?
    ensures LoadFile(c, contents[k]).value in Loaded(c, contents)
  {
    var init := contents[..|contents| - 1];
    if k < |contents| - 1 {
      assert init[k] == contents[k];
      LoadedContains(c, init, k);
    }
  }

  /** The entry a saved file of each kind reads back as. */
  function Reloaded(e: Entry): (r: Entry)
    ensures r.enc && WellFormed(r) && KindOf(r) == KindOf(e) && Identifier(r) == Identifier(e)
    ensures WellFormed(e) ==> DecryptedRows(r, KEY) == DecryptedRows(e, KEY)
  {
    match e
    case Password(service, user, pwd, _, _) => NewPassword(service, user, pwd, true)
    case BackupCode(account, user, code, _, _, _) => NewBackupCode(account, user, code, true)
    case QuickNote(serial, note, _, _) => NewQuickNote(serial, note, true)
  }

  /** Reading back the file `save*` wrote for a storable entry gives the
      obscured copy of the entry. */
  lemma LoadFileOfRecord(e: Entry)
    requires WellFormed(e) && Storable(e)
    ensures Location(e).0 == Notes ==> NoteIdNumeric(RecordOf(e))
    ensures LoadFile(Location(e).0, RecordOf(e)) == Some(Reloaded(e))
  {
    assert Location(e).0 == CategoryOf(KindOf(e));
    match e
    case Password(_, _, _, _, _) =>
      PasswordRoundTrip(e);
      assert RecordOf(e) == PasswordRecord(e);
    case BackupCode(_, _, _, _, _, _) =>
      BackupRoundTrip(e);
      assert RecordOf(e) == BackupRecord(e);
    case QuickNote(_, _, _, _) =>
      NoteRoundTrip(e);
      assert RecordOf(e) == NoteRecord(e);
  }

  /** Persistence round trip at the vault level: whatever order the directory
      is listed in, loading the category of a saved entry brings back an
      obscured entry with the same identifier that reveals the same rows to
      the vault's key. */
  lemma SavedEntrySurvivesReload(d: Disk, e: Entry, names: seq<FileName>)
    requires WellFormed(e) && Storable(e)
    requires Location(e) in d && d[Location(e)] == RecordOf(e)
    requires IsListing(d, Location(e).0, names)
    ensures Reloaded(e) in Loaded(Location(e).0, Contents(d, Location(e).0, names))
    ensures DecryptedRows(Reloaded(e), KEY) == DecryptedRows(e, KEY)
  {
    var c := Location(e).0;
    var cs := Contents(d, c, names);
    assert Location(e).1 in names;
    var k :| 0 <= k < |names| && names[k] == Location(e).1;
    assert cs[k] == RecordOf(e);
    LoadFileOfRecord(e);
    LoadedContains(c, cs, k);
  }

  /** `addPassword` followed by a restart: a fresh vault over the same
      directory loads the password back with the same plaintext. */
  lemma AddPasswordSurvivesReload(v: Vault, service: Bytes, user: Bytes, pwd: Bytes, enc: bool)
    requires service != [] && NEWLINE !in service && NEWLINE !in user && TAB !in pwd
    ensures var d := AddPassword(v, service, user, pwd, enc).disk;
      forall names :: IsListing(d, Passwords, names) ==>
        NewPassword(service, user, pwd, true) in Loaded(Passwords, Contents(d, Passwords, names))
    ensures DecryptedRows(NewPassword(service, user, pwd, true), KEY) == [Row(USERNAME_LABEL, user), Row(PASSWORD_LABEL, pwd)]
  {
    var r := AddPassword(v, service, user, pwd, enc);
    forall names | IsListing(r.disk, Passwords, names)
      ensures NewPassword(service, user, pwd, true) in Loaded(Passwords, Contents(r.disk, Passwords, names))
    {
      SavedEntrySurvivesReload(r.disk, r.items[|v.items|], names);
    }
  }

  /** After a restart the counter is above the serial of every loaded note. */
  lemma ReloadedCounterPassesSavedSerials(d: Disk, names: seq<FileName>)
    requires IsListing(d, Notes, names)
    ensures var l := Loaded(Notes, Contents(d, Notes, names));
      forall j :: 0 <= j < |l| ==> l[j].QuickNote? && CounterAfter(1, l) > l[j].serial
  {
    CounterAfterIsMax(1, Loaded(Notes, Contents(d, Notes, names)));
  }

  /** A directory holding one file is listed by that file's name alone. */
  lemma SingleFileListing(d: Disk, p: Path)
    requires d.Keys == {p}
    ensures IsListing(d, p.0, [p.1])
    ensures Contents(d, p.0, [p.1]) == [d[p]]
  {
  }

  /** A restart over a notes directory that holds one note file loads that
      note alone and resumes the counter just past its serial. */
  lemma ReloadSingleNote(d: Disk, n: Entry)
    requires n.QuickNote? && WellFormed(n) && Storable(n)
    requires d.Keys == {Location(n)} && d[Location(n)] == RecordOf(n)
    ensures Location(n).0 == Notes
    ensures IsListing(d, Notes, [Location(n).1])
    ensures Loadable(Notes, Contents(d, Notes, [Location(n).1]))
    ensures Loaded(Notes, Contents(d, Notes, [Location(n).1])) == [Reloaded(n)]
    ensures CounterAfter(1, Loaded(Notes, Contents(d, Notes, [Location(n).1]))) == if n.serial >= 1 then n.serial + 1 else 1
  {
    SingleFileListing(d, Location(n));
    var cs := Contents(d, Notes, [Location(n).1]);
    LoadFileOfRecord(n);
    assert Loaded(Notes, cs) == Loaded(Notes, []) + Found(LoadFile(Notes, cs[0]));
    assert CounterAfter(1, [Reloaded(n)]) == Bump(CounterAfter(1, []), Reloaded(n));
  }

  /** The files of notes 1 and 2 are different files. */
  lemma NoteFilesOneTwoDiffer()
    ensures FilePath(QuickNoteKind, IntToString(1)) != FilePath(QuickNoteKind, IntToString(2))
  {
    var one := IntToString(1);
    var two := IntToString(2);
    assert one == [DigitByte(1)] && two == [DigitByte(2)];
    assert SafeFile(one) == one && SafeFile(two) == two by {
      SafeFileIdentity(one);
      SafeFileIdentity(two);
    }
    assert FilePath(QuickNoteKind, one).1[|NOTE_PREFIX|] != FilePath(QuickNoteKind, two).1[|NOTE_PREFIX|];
  }

  /** The first note added to an empty vault gets serial 1 and is the only
      file on disk. */
  lemma AddFirstNote(a: Bytes)
    ensures var v1 := AddNote(Fresh(map[]), a, true);
      && v1.items == [NewQuickNote(1, a, true)]
      && v1.noteCounter == 2
      && v1.disk.Keys == {FilePath(QuickNoteKind, IntToString(1))}
      && v1.disk[FilePath(QuickNoteKind, IntToString(1))] == RecordOf(v1.items[0])
  {
    var v1 := AddNote(Fresh(map[]), a, true);
    assert Location(v1.items[0]) == FilePath(QuickNoteKind, IntToString(1));
  }

  /** Two notes added to an empty vault get serials 1 and 2, each in its own
      file. */
  lemma AddTwoNotes(a: Bytes, b: Bytes)
    ensures var v2 := AddNote(AddNote(Fresh(map[]), a, true), b, true);
      && v2.items[0] == NewQuickNote(1, a, true)
      && v2.items[1] == NewQuickNote(2, b, true)
      && v2.disk.Keys == {Location(v2.items[0]), Location(v2.items[1])}
      && Location(v2.items[0]) != Location(v2.items[1])
      && v2.disk[Location(v2.items[0])] == RecordOf(v2.items[0])
      && v2.disk[Location(v2.items[1])] == RecordOf(v2.items[1])
  {
    var v1 := AddNote(Fresh(map[]), a, true);
    AddFirstNote(a);
    var v2 := AddNote(v1, b, true);
    NoteFilesOneTwoDiffer();
    var p1 := FilePath(QuickNoteKind, IntToString(1));
    var p2 := FilePath(QuickNoteKind, IntToString(2));
    assert v2.items[0] == v1.items[0];
    assert Location(v2.items[1]) == p2;
    assert v2.disk[p1] == v1.disk[p1];
  }

  /** Deleting an identifier that is present removes its file and nothing
      else from the disk. */
  lemma DeleteRemovesFile(v: Vault, kind: Kind, id: Bytes, j: nat)
    requires j < |v.items| && Matches(v.items[j], kind, id)
    ensures Delete(v, kind, id).1
    ensures Delete(v, kind, id).0.disk == v.disk - {FilePath(kind, id)}
  {
  }

  /** Serials are not unique over time: add notes 1 and 2 to an empty vault,
      delete note 2, restart, and the next note gets serial 2 again. */
  lemma SerialReusedAfterReload(a: Bytes, b: Bytes, c: Bytes)
    requires TAB !in a
    ensures var v2 := AddNote(AddNote(Fresh(map[]), a, true), b, true);
      var v3 := Delete(v2, QuickNoteKind, IntToString(2)).0;
      var names := [Location(v2.items[0]).1];
      && v2.items[1].serial == 2
      && Delete(v2, QuickNoteKind, IntToString(2)).1
      && IsListing(v3.disk, Notes, names)
      && Loadable(Notes, Contents(v3.disk, Notes, names))
      && var loaded := Loaded(Notes, Contents(v3.disk, Notes, names));
         AddNote(Vault(loaded, CounterAfter(1, loaded), v3.disk), c, true).items[|loaded|].serial == 2
  {
    AddTwoNotes(a, b);
    var v2 := AddNote(AddNote(Fresh(map[]), a, true), b, true);
    var two := IntToString(2);
    assert Matches(v2.items[1], QuickNoteKind, two);
    DeleteRemovesFile(v2, QuickNoteKind, two, 1);
    var d3 := Delete(v2, QuickNoteKind, two).0.disk;
    RemoveOneOfTwo(v2.disk, Location(v2.items[0]), Location(v2.items[1]));
    ReloadSingleNote(d3, v2.items[0]);
  }

  lemma RemoveOneOfTwo(d: Disk, p: Path, q: Path)
    requires d.Keys == {p, q} && p != q
    ensures (d - {q}).Keys == {p} && (d - {q})[p] == d[p]
  {
  }

  /** Every loaded entry is what some listed file loads as. */
  lemma {:induction false} LoadedFrom(c: Category, contents: seq<Bytes>, j: nat)
    requires j < |Loaded(c, contents)|
    ensures exists k :: 0 <= k < |contents| && LoadFile(c, contents[k]) == Some(Loaded(c, contents)[j])
  {
    var init := contents[..|contents| - 1];
    var last := contents[|contents| - 1];
    assert Loaded(c, contents) == Loaded(c, init) + Found(LoadFile(c, last));
    if j < |Loaded(c, init)| {
      LoadedFrom(c, init, j);
      var k :| 0 <= k < |init| && LoadFile(c, init[k]) == Some(Loaded(c, init)[j]);
      assert contents[k] == init[k];
    } else {
      assert LoadFile(c, contents[|contents| - 1]) == Some(Loaded(c, contents)[j]);
    }
  }

  /** In a directory of two files every listed file is one of the two. */
  lemma TwoFileContents(d: Disk, c: Category, p: Path, q: Path, names: seq<FileName>)
    requires d.Keys == {p, q} && IsListing(d, c, names)
    ensures forall i :: 0 <= i < |names| ==>
      Contents(d, c, names)[i] == d[p] || Contents(d, c, names)[i] == d[q]
  {
    forall i | 0 <= i < |names|
      ensures Contents(d, c, names)[i] == d[p] || Contents(d, c, names)[i] == d[q]
    {
      assert (c, names[i]) in d;
    }
  }

  /** Restarting over a notes directory of two saved notes brings both back. */
  lemma ReloadTwoNotes(d: Disk, n1: Entry, n2: Entry, names: seq<FileName>)
    requires n1.QuickNote? && WellFormed(n1) && Storable(n1)
    requires n2.QuickNote? && WellFormed(n2) && Storable(n2)
    requires d.Keys == {Location(n1), Location(n2)}
    requires d[Location(n1)] == RecordOf(n1) && d[Location(n2)] == RecordOf(n2)
    requires IsListing(d, Notes, names)
    ensures Loadable(Notes, Contents(d, Notes, names))
    ensures Reloaded(n1) in Loaded(Notes, Contents(d, Notes, names))
    ensures Reloaded(n2) in Loaded(Notes, Contents(d, Notes, names))
  {
    TwoFileContents(d, Notes, Location(n1), Location(n2), names);
    LoadFileOfRecord(n1);
    LoadFileOfRecord(n2);
    SavedEntrySurvivesReload(d, n1, names);
    SavedEntrySurvivesReload(d, n2, names);
  }

  /** ... and nothing else. */
  lemma ReloadOnlyTwoNotes(d: Disk, n1: Entry, n2: Entry, names: seq<FileName>)
    requires n1.QuickNote? && WellFormed(n1) && Storable(n1)
    requires n2.QuickNote? && WellFormed(n2) && Storable(n2)
    requires d.Keys == {Location(n1), Location(n2)}
    requires d[Location(n1)] == RecordOf(n1) && d[Location(n2)] == RecordOf(n2)
    requires IsListing(d, Notes, names)
    ensures forall j :: 0 <= j < |Loaded(Notes, Contents(d, Notes, names))| ==>
      Loaded(Notes, Contents(d, Notes, names))[j] in {Reloaded(n1), Reloaded(n2)}
  {
    var cs := Contents(d, Notes, names);
    TwoFileContents(d, Notes, Location(n1), Location(n2), names);
    LoadFileOfRecord(n1);
    LoadFileOfRecord(n2);
    forall j | 0 <= j < |Loaded(Notes, cs)|
      ensures Loaded(Notes, cs)[j] in {Reloaded(n1), Reloaded(n2)}
    {
      LoadedFrom(Notes, cs, j);
      var k :| 0 <= k < |cs| && LoadFile(Notes, cs[k]) == Some(Loaded(Notes, cs)[j]);
      assert cs[k] == RecordOf(n1) || cs[k] == RecordOf(n2);
    }
  }

  /** A scan that loaded exactly the notes with serials 1 and 2 (in either
      order, possibly more than once) leaves a counter started at 1 at 3. */
  lemma CounterOfOneAndTwo(loaded: seq<Entry>, x: Entry, y: Entry)
    requires x.QuickNote? && x.serial == 1 && y.QuickNote? && y.serial == 2
    requires y in loaded
    requires forall j :: 0 <= j < |loaded| ==> loaded[j] in {x, y}
    ensures CounterAfter(1, loaded) == 3
  {
    CounterAfterIsMax(1, loaded);
    var i :| 0 <= i < |loaded| && loaded[i] == y;
  }

  /** Two notes, then a restart in whatever order the directory is listed:
      both notes come back and the counter resumes at 3. */
  lemma SerialsResumeAfterReload(a: Bytes, b: Bytes)
    requires TAB !in a && TAB !in b
    ensures var d := AddNote(AddNote(Fresh(map[]), a, true), b, true).disk;
      forall names :: IsListing(d, Notes, names) ==>
        && Loadable(Notes, Contents(d, Notes, names))
        && NewQuickNote(1, a, true) in Loaded(Notes, Contents(d, Notes, names))
        && NewQuickNote(2, b, true) in Loaded(Notes, Contents(d, Notes, names))
        && CounterAfter(1, Loaded(Notes, Contents(d, Notes, names))) == 3
  {
    AddTwoNotes(a, b);
    var v2 := AddNote(AddNote(Fresh(map[]), a, true), b, true);
    var n1, n2 := v2.items[0], v2.items[1];
    assert Storable(n1) && Storable(n2);
    forall names | IsListing(v2.disk, Notes, names)
      ensures && Loadable(Notes, Contents(v2.disk, Notes, names))
        && Reloaded(n1) in Loaded(Notes, Contents(v2.disk, Notes, names))
        && Reloaded(n2) in Loaded(Notes, Contents(v2.disk, Notes, names))
        && CounterAfter(1, Loaded(Notes, Contents(v2.disk, Notes, names))) == 3
    {
      ReloadTwoNotes(v2.disk, n1, n2, names);
      ReloadOnlyTwoNotes(v2.disk, n1, n2, names);
      CounterOfOneAndTwo(Loaded(Notes, Contents(v2.disk, Notes, names)), Reloaded(n1), Reloaded(n2));
    }
  }
}
