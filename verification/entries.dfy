/** The three entry variants of the vault (`Password`, `BackupCode`,
    `QuickNote`) with their key-gated read/edit protocol, and the row lookup
    `getRowValue` the stores use. An entry keeps its plaintext field even when
    it is obscured; the encoded field is filled only when `enc` is set. */
module Entries {
  import opened Bytes
  import opened Codec
  import opened Decimal

  /** The decryption key every variant compares against. */
  const KEY: Bytes := Ascii("turndownforwhat")

  const USERNAME_LABEL: Bytes := Ascii("Username")
  const PASSWORD_LABEL: Bytes := Ascii("Password")
  const CODE_LABEL: Bytes := Ascii("Backup Code")
  const TEXT_LABEL: Bytes := Ascii("Text")
  const ERROR_LABEL: Bytes := Ascii("Error")
  const INVALID_KEY: Bytes := Ascii("Invalid decryption key.")
  const PLACEHOLDER: Bytes := Ascii("[ENCRYPTED]")
  const NOTE_TITLE_PREFIX: Bytes := Ascii("Note ")

  /** A (field, value) pair shown by the detail view. */
  datatype Row = Row(field: Bytes, value: Bytes)

  /** The result of `getType()`. */
  datatype Kind = PasswordKind | BackupCodeKind | QuickNoteKind

  datatype Entry =
    | Password(service: Bytes, user: Bytes, pwd: Bytes, encPwd: Bytes, enc: bool)
    | BackupCode(account: Bytes, user: Bytes, code: Bytes, encUser: Bytes, encCode: Bytes, enc: bool)
    | QuickNote(serial: int, note: Bytes, encNote: Bytes, enc: bool)

  /** The invariant every constructor establishes and `edit`/`setEncrypted`
      keep: an obscured entry's encoded fields are the codec image of its
      plaintext fields. */
  predicate WellFormed(e: Entry)
  {
    match e
    case Password(_, _, pwd, encPwd, enc) => enc ==> encPwd == XorEnc(pwd)
    case BackupCode(_, user, code, encUser, encCode, enc) =>
      enc ==> encUser == XorEnc(user) && encCode == XorEnc(code)
    case QuickNote(_, note, encNote, enc) => enc ==> encNote == XorEnc(note)
  }

  /** The plaintext of an entry under the labels of its variant: what a
      correct key is expected to reveal. */
  function PlainRows(e: Entry): seq<Row>
  {
    match e
    case Password(_, user, pwd, _, _) => [Row(USERNAME_LABEL, user), Row(PASSWORD_LABEL, pwd)]
    case BackupCode(_, user, code, _, _, _) => [Row(USERNAME_LABEL, user), Row(CODE_LABEL, code)]
    case QuickNote(_, note, _, _) => [Row(TEXT_LABEL, note)]
  }

  /** The single row a rejected key gets. */
  const ERROR_ROWS: seq<Row> := [Row(ERROR_LABEL, INVALID_KEY)]

  lemma LabelsDistinct()
    ensures USERNAME_LABEL != PASSWORD_LABEL && USERNAME_LABEL != CODE_LABEL
    ensures ERROR_LABEL != USERNAME_LABEL && ERROR_LABEL != TEXT_LABEL
  {
    assert USERNAME_LABEL[0] != PASSWORD_LABEL[0];
  }

  // ---------- constructors ----------

  function NewPassword(service: Bytes, user: Bytes, pwd: Bytes, enc: bool): (r: Entry)
    ensures r.Password? && WellFormed(r)
    ensures r.service == service && r.user == user && r.pwd == pwd && r.enc == enc
    ensures !enc ==> r.encPwd == []
  {
    Password(service, user, pwd, if enc then XorEnc(pwd) else [], enc)
  }

  function NewBackupCode(account: Bytes, user: Bytes, code: Bytes, enc: bool): (r: Entry)
    ensures r.BackupCode? && WellFormed(r)
    ensures r.account == account && r.user == user && r.code == code && r.enc == enc
    ensures !enc ==> r.encUser == [] && r.encCode == []
  {
    if enc then BackupCode(account, user, code, XorEnc(user), XorEnc(code), true)
    else BackupCode(account, user, code, [], [], false)
  }

  function NewQuickNote(serial: int, note: Bytes, enc: bool): (r: Entry)
    ensures r.QuickNote? && WellFormed(r)
    ensures r.serial == serial && r.note == note && r.enc == enc
    ensures !enc ==> r.encNote == []
  {
    QuickNote(serial, note, if enc then XorEnc(note) else [], enc)
  }

  // ---------- accessors ----------

  function KindOf(e: Entry): Kind
  {
    match e
    case Password(_, _, _, _, _) => PasswordKind
    case BackupCode(_, _, _, _, _, _) => BackupCodeKind
    case QuickNote(_, _, _, _) => QuickNoteKind
  }

  /** `getIdentifier()`: the service, the account, or the decimal serial. */
  function Identifier(e: Entry): (r: Bytes)
    ensures e.Password? ==> r == e.service
    ensures e.BackupCode? ==> r == e.account
    ensures e.QuickNote? ==> r != [] && (r[0] == MINUS <==> e.serial < 0)
  {
    match e
    case Password(service, _, _, _, _) => service
    case BackupCode(account, _, _, _, _, _) => account
    case QuickNote(serial, _, _, _) => IntToString(serial)
  }

  /** A note's identifier is the text `stoi` reads its serial back from. */
  lemma NoteIdentifierParses(e: Entry)
    requires e.QuickNote? && INT_MIN <= e.serial <= INT_MAX
    ensures StoI(Identifier(e)) == Some(e.serial)
  {
    StoIOfIntToString(e.serial);
  }

  /** `getTitle()`: the identifier, or "Note <serial>" for a note. */
  function Title(e: Entry): (r: Bytes)
    ensures !e.QuickNote? ==> r == Identifier(e)
    ensures e.QuickNote? ==> |r| > |NOTE_TITLE_PREFIX| && r[|NOTE_TITLE_PREFIX|..] == Identifier(e)
    ensures e.QuickNote? ==> r[..|NOTE_TITLE_PREFIX|] == NOTE_TITLE_PREFIX
  {
    match e
    case QuickNote(serial, _, _, _) => NOTE_TITLE_PREFIX + IntToString(serial)
    case _ => Identifier(e)
  }

  // ---------- rows ----------

  /** `encryptedRows()`: what the detail view shows before a key is given. */
  function EncryptedRows(e: Entry): (r: seq<Row>)
    ensures |r| == |PlainRows(e)|
    ensures !e.enc ==> r == PlainRows(e)
    ensures WellFormed(e) && e.enc && !e.QuickNote? ==> r[1] != PlainRows(e)[1]
    ensures WellFormed(e) && e.enc && e.Password? ==>
      r == [Row(USERNAME_LABEL, e.user), Row(PASSWORD_LABEL, XorEnc(e.pwd))]
    ensures WellFormed(e) && e.enc && e.BackupCode? ==>
      r == [Row(USERNAME_LABEL, XorEnc(e.user)), Row(CODE_LABEL, XorEnc(e.code))]
    ensures e.enc && e.QuickNote? ==> r == [Row(TEXT_LABEL, PLACEHOLDER)]
  {
    match e
    case Password(_, user, pwd, encPwd, enc) =>
      [Row(USERNAME_LABEL, user), Row(PASSWORD_LABEL, if enc then encPwd else pwd)]
    case BackupCode(_, user, code, encUser, encCode, enc) =>
      [Row(USERNAME_LABEL, if enc then encUser else user), Row(CODE_LABEL, if enc then encCode else code)]
    case QuickNote(_, note, _, enc) =>
      [Row(TEXT_LABEL, if enc then PLACEHOLDER else note)]
  }

  /** `decryptedRows(key)`: the key gate. An obscured entry refuses every key
      but the vault's; an unobscured one answers any key. */
  function DecryptedRows(e: Entry, key: Bytes): (r: seq<Row>)
    ensures e.enc && key != KEY ==> r == ERROR_ROWS
    ensures WellFormed(e) && (!e.enc || key == KEY) ==> r == PlainRows(e)
  {
    if e.enc && key != KEY then ERROR_ROWS
    else
      match e
      case Password(_, user, pwd, encPwd, enc) =>
        DecodeEncode(pwd);
        [Row(USERNAME_LABEL, user), Row(PASSWORD_LABEL, if enc then XorDec(encPwd) else pwd)]
      case BackupCode(_, user, code, encUser, encCode, enc) =>
        DecodeEncode(user);
        DecodeEncode(code);
        [Row(USERNAME_LABEL, if enc then XorDec(encUser) else user),
         Row(CODE_LABEL, if enc then XorDec(encCode) else code)]
      case QuickNote(_, note, encNote, enc) =>
        DecodeEncode(note);
        [Row(TEXT_LABEL, if enc then XorDec(encNote) else note)]
  }

  /** `edit(key, v1, v2)`: with the vault's key, a password or a note takes
      `v1` as its secret and a backup code takes `v1` as user and `v2` as
      code; the encoded fields follow when the entry is obscured. Any other
      key changes nothing. */
  function Edit(e: Entry, key: Bytes, v1: Bytes, v2: Bytes): (r: Entry)
    ensures key != KEY ==> r == e
    ensures KindOf(r) == KindOf(e) && Identifier(r) == Identifier(e) && r.enc == e.enc
    ensures WellFormed(e) ==> WellFormed(r)
    ensures key == KEY && WellFormed(e) && e.Password? ==>
      DecryptedRows(r, KEY) == [Row(USERNAME_LABEL, e.user), Row(PASSWORD_LABEL, v1)]
    ensures key == KEY && WellFormed(e) && e.BackupCode? ==>
      DecryptedRows(r, KEY) == [Row(USERNAME_LABEL, v1), Row(CODE_LABEL, v2)]
    ensures key == KEY && WellFormed(e) && e.QuickNote? ==>
      DecryptedRows(r, KEY) == [Row(TEXT_LABEL, v1)]
  {
    if key != KEY then e
    else
      match e
      case Password(service, user, _, encPwd, enc) =>
        Password(service, user, v1, if enc then XorEnc(v1) else encPwd, enc)
      case BackupCode(account, _, _, encUser, encCode, enc) =>
        BackupCode(account, v1, v2, if enc then XorEnc(v1) else encUser,
                   if enc then XorEnc(v2) else encCode, enc)
      case QuickNote(serial, _, encNote, enc) =>
        QuickNote(serial, v1, if enc then XorEnc(v1) else encNote, enc)
  }

  /** `QuickNote::setEncrypted`: switching obscuring on computes the encoded
      text from the plaintext the note kept; switching it off only clears the
      flag. The plaintext a correct key reveals never changes. */
  function SetEncrypted(e: Entry, flag: bool): (r: Entry)
    requires e.QuickNote?
    ensures r.QuickNote? && r.serial == e.serial && r.note == e.note && r.enc == flag
    ensures WellFormed(e) ==> WellFormed(r)
    ensures WellFormed(e) ==> DecryptedRows(r, KEY) == DecryptedRows(e, KEY)
    ensures !flag ==> DecryptedRows(r, KEY) == [Row(TEXT_LABEL, e.note)]
  {
    var encNote := if flag && !e.enc then XorEnc(e.note) else e.encNote;
    QuickNote(e.serial, e.note, encNote, flag)
  }

  // ---------- row lookup ----------

  /** Row `i` is the first row of `rows` carrying `field`. */
  predicate FirstLabelled(rows: seq<Row>, field: Bytes, i: int)
  {
    0 <= i < |rows| && rows[i].field == field
    && forall j :: 0 <= j < i ==> rows[j].field != field
  }

  /** `getRowValue`: the value of the first row carrying `field`, or the
      empty string when no row does. */
  function GetRowValue(rows: seq<Row>, field: Bytes): (r: Bytes)
    ensures forall i :: FirstLabelled(rows, field, i) ==> r == rows[i].value
    ensures (forall i :: 0 <= i < |rows| ==> rows[i].field != field) ==> r == []
  {
    if rows == [] then []
    else if rows[0].field == field then rows[0].value
    else
      assert forall i :: 1 <= i < |rows| && FirstLabelled(rows, field, i) ==> FirstLabelled(rows[1..], field, i - 1);
      GetRowValue(rows[1..], field)
  }

  /** `getRowValue` reads every plaintext field back out of its labelled row. */
  lemma PlainRowsLookup(e: Entry)
    ensures e.Password? ==>
      GetRowValue(PlainRows(e), USERNAME_LABEL) == e.user && GetRowValue(PlainRows(e), PASSWORD_LABEL) == e.pwd
    ensures e.BackupCode? ==>
      GetRowValue(PlainRows(e), USERNAME_LABEL) == e.user && GetRowValue(PlainRows(e), CODE_LABEL) == e.code
    ensures e.QuickNote? ==> GetRowValue(PlainRows(e), TEXT_LABEL) == e.note
  {
    LabelsDistinct();
    var rows := PlainRows(e);
    assert FirstLabelled(rows, rows[0].field, 0);
    if !e.QuickNote? {
      assert FirstLabelled(rows, rows[1].field, 1);
    }
  }
}
