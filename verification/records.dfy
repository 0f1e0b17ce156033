/** The per-category record files: `savePassword`, `saveBackup` and `saveNote`
    write fixed `KEY=VALUE` lines; the loaders split a file into lines the way
    `getline` does, split each line at its first '=', let a later duplicate
    key win, and rebuild an obscured entry from the fields. */
module Records {
  import opened Bytes
  import opened Codec
  import opened Decimal
  import opened Entries

  const SERVICE_KEY: Bytes := Ascii("SERVICE")
  const USERNAME_KEY: Bytes := Ascii("USERNAME")
  const PASSWORD_KEY: Bytes := Ascii("PASSWORD")
  const ACCOUNT_KEY: Bytes := Ascii("ACCOUNT")
  const CODE_KEY: Bytes := Ascii("CODE")
  const NOTE_ID_KEY: Bytes := Ascii("NOTE_ID")
  const TEXT_KEY: Bytes := Ascii("TEXT")

  /** A key and the value written after its '='. */
  datatype Field = Field(key: Bytes, value: Bytes)

  /** A record file parsed into its keys, as the loaders' `unordered_map`. */
  type Record = map<Bytes, Bytes>

  // ---------- writing ----------

  /** One `KEY=VALUE` line with its terminating '\n'. */
  function Line(f: Field): Bytes
  {
    f.key + [EQUALS] + f.value + [NEWLINE]
  }

  /** The bytes of a file holding `fields` in order, one line each. */
  function Render(fields: seq<Field>): Bytes
  {
    if fields == [] then [] else Line(fields[0]) + Render(fields[1..])
  }

  /** `savePassword`: the service, the username in plaintext and the encoded
      password, all taken from the rows the vault's own key reveals. */
  function PasswordRecord(e: Entry): (r: Bytes)
    requires e.Password?
    ensures WellFormed(e) ==>
      r == Render([Field(SERVICE_KEY, e.service), Field(USERNAME_KEY, e.user),
                   Field(PASSWORD_KEY, XorEnc(e.pwd))])
  {
    PlainRowsLookup(e);
    var dec := DecryptedRows(e, KEY);
    var user := GetRowValue(dec, USERNAME_LABEL);
    var pass := GetRowValue(dec, PASSWORD_LABEL);
    Render([Field(SERVICE_KEY, Title(e)), Field(USERNAME_KEY, user), Field(PASSWORD_KEY, XorEnc(pass))])
  }

  /** `saveBackup`: the account, the username IN PLAINTEXT (it comes from the
      decrypted rows and is not re-encoded) and the encoded code. */
  function BackupRecord(e: Entry): (r: Bytes)
    requires e.BackupCode?
    ensures WellFormed(e) ==>
      r == Render([Field(ACCOUNT_KEY, e.account), Field(USERNAME_KEY, e.user),
                   Field(CODE_KEY, XorEnc(e.code))])
  {
    PlainRowsLookup(e);
    var dec := DecryptedRows(e, KEY);
    var user := GetRowValue(dec, USERNAME_LABEL);
    var code := GetRowValue(dec, CODE_LABEL);
    Render([Field(ACCOUNT_KEY, Title(e)), Field(USERNAME_KEY, user), Field(CODE_KEY, XorEnc(code))])
  }

  /** `saveNote`: the decimal serial and the encoded text. */
  function NoteRecord(e: Entry): (r: Bytes)
    requires e.QuickNote?
    ensures WellFormed(e) ==>
      r == Render([Field(NOTE_ID_KEY, IntToString(e.serial)), Field(TEXT_KEY, XorEnc(e.note))])
  {
    PlainRowsLookup(e);
    var dec := DecryptedRows(e, KEY);
    var text := GetRowValue(dec, TEXT_LABEL);
    Render([Field(NOTE_ID_KEY, Identifier(e)), Field(TEXT_KEY, XorEnc(text))])
  }

  // ---------- reading ----------

  /** The index of the first `b` in `s`, or `|s|` when there is none. */
  function IndexOf(s: Bytes, b: Byte): (k: nat)
    ensures k <= |s|
    ensures forall i :: 0 <= i < k ==> s[i] != b
    ensures k < |s| ==> s[k] == b
  {
    if s == [] || s[0] == b then 0 else 1 + IndexOf(s[1..], b)
  }

  /** The lines successive `getline` calls return: the text between
      line breaks, plus a last line without a break when one is left over. */
  function SplitLines(s: Bytes): (r: seq<Bytes>)
    ensures forall i :: 0 <= i < |r| ==> NEWLINE !in r[i]
    decreases |s|
  {
    if s == [] then []
    else
      var k := IndexOf(s, NEWLINE);
      if k == |s| then [s] else [s[..k]] + SplitLines(s[k + 1..])
  }

  /** One loader step: a line with a '=' stores the text after its FIRST '='
      under the text before it, overwriting an earlier value; a line without
      '=' is ignored. */
  function ParseLine(m: Record, line: Bytes): (r: Record)
    ensures EQUALS !in line ==> r == m
    ensures r.Keys <= m.Keys + {line[..IndexOf(line, EQUALS)]}
  {
    var k := IndexOf(line, EQUALS);
    if k == |line| then m else m[line[..k] := line[k + 1..]]
  }

  function ParseLines(m: Record, lines: seq<Bytes>): Record
    decreases |lines|
  {
    if lines == [] then m else ParseLines(ParseLine(m, lines[0]), lines[1..])
  }

  function ParseRecord(content: Bytes): Record
  {
    ParseLines(map[], SplitLines(content))
  }

  /** `m[key]` on the loaders' map: a missing key reads as the empty string. */
  function Lookup(m: Record, key: Bytes): (r: Bytes)
    ensures key !in m ==> r == []
  {
    if key in m then m[key] else []
  }

  /** The record `fields` denote when read in order, a later key winning. */
  function Assign(m: Record, fields: seq<Field>): (r: Record)
    decreases |fields|
  {
    if fields == [] then m else Assign(m[fields[0].key := fields[0].value], fields[1..])
  }

  /** The last field carrying a key decides its value. */
  lemma {:induction false} AssignLastWins(m: Record, fields: seq<Field>, i: nat)
    requires i < |fields|
    requires forall j :: i < j < |fields| ==> fields[j].key != fields[i].key
    ensures fields[i].key in Assign(m, fields)
    ensures Assign(m, fields)[fields[i].key] == fields[i].value
    decreases |fields|
  {
    var m' := m[fields[0].key := fields[0].value];
    if i == 0 {
      AssignKeeps(m', fields[1..], fields[0].key);
    } else {
      AssignLastWins(m', fields[1..], i - 1);
    }
  }

  /** A key no field carries keeps its value. */
  lemma {:induction false} AssignKeeps(m: Record, fields: seq<Field>, k: Bytes)
    requires forall j :: 0 <= j < |fields| ==> fields[j].key != k
    ensures k in Assign(m, fields) <==> k in m
    ensures k in m ==> Assign(m, fields)[k] == m[k]
    decreases |fields|
  {
    if fields != [] {
      AssignKeeps(m[fields[0].key := fields[0].value], fields[1..], k);
    }
  }

  /** Fields a line-oriented file can hold: keys without '=' or '\n' and
      values without '\n'. */
  predicate Writable(fields: seq<Field>)
  {
    forall i :: 0 <= i < |fields| ==>
      EQUALS !in fields[i].key && NEWLINE !in fields[i].key && NEWLINE !in fields[i].value
  }

  // ---------- loaders ----------

  /** `loadPasswords` on one file: nothing when SERVICE is missing or empty,
      else an obscured password built from SERVICE, USERNAME and the decoded
      PASSWORD. */
  function LoadPasswordFile(content: Bytes): (r: Option<Entry>)
    ensures r.Some? ==> r.value.Password? && r.value.enc && WellFormed(r.value) && r.value.service != []
    ensures r.None? <==> Lookup(ParseRecord(content), SERVICE_KEY) == []
    ensures r.Some? ==> r.value.service == Lookup(ParseRecord(content), SERVICE_KEY)
  {
    var m := ParseRecord(content);
    var name := Lookup(m, SERVICE_KEY);
    if name == [] then None
    else Some(NewPassword(name, Lookup(m, USERNAME_KEY), XorDec(Lookup(m, PASSWORD_KEY)), true))
  }

  /** `loadBackupCodes` on one file. */
  function LoadBackupFile(content: Bytes): (r: Option<Entry>)
    ensures r.Some? ==> r.value.BackupCode? && r.value.enc && WellFormed(r.value) && r.value.account != []
    ensures r.None? <==> Lookup(ParseRecord(content), ACCOUNT_KEY) == []
    ensures r.Some? ==> r.value.account == Lookup(ParseRecord(content), ACCOUNT_KEY)
  {
    var m := ParseRecord(content);
    var acc := Lookup(m, ACCOUNT_KEY);
    if acc == [] then None
    else Some(NewBackupCode(acc, Lookup(m, USERNAME_KEY), XorDec(Lookup(m, CODE_KEY)), true))
  }

  /** A note file whose NOTE_ID `stoi` accepts (or that has none). */
  predicate NoteIdNumeric(content: Bytes)
  {
    var id := Lookup(ParseRecord(content), NOTE_ID_KEY);
    id != [] ==> StoI(id).Some?
  }

  /** `loadNotes` on one file. */
  function LoadNoteFile(content: Bytes): (r: Option<Entry>)
    requires NoteIdNumeric(content)
    ensures r.Some? ==> r.value.QuickNote? && r.value.enc && WellFormed(r.value)
    ensures r.Some? ==> INT_MIN <= r.value.serial <= INT_MAX
    ensures r.None? <==> Lookup(ParseRecord(content), NOTE_ID_KEY) == []
    ensures r.Some? ==> r.value.serial == StoI(Lookup(ParseRecord(content), NOTE_ID_KEY)).value
  {
    var m := ParseRecord(content);
    var id := Lookup(m, NOTE_ID_KEY);
    if id == [] then None
    else Some(NewQuickNote(StoI(id).value, XorDec(Lookup(m, TEXT_KEY)), true))
  }

  // ---------- parsing a rendered file ----------

  lemma SplitLinesCons(x: Bytes, rest: Bytes)
    requires NEWLINE !in x
    ensures SplitLines(x + [NEWLINE] + rest) == [x] + SplitLines(rest)
  {
    var s := x + [NEWLINE] + rest;
    assert IndexOf(s, NEWLINE) == |x| by {
      assert s[|x|] == NEWLINE;
      assert forall i :: 0 <= i < |x| ==> s[i] == x[i];
    }
    assert s[..|x|] == x;
    assert s[|x| + 1..] == rest;
  }

  /** The lines of a rendered file are its fields' `KEY=VALUE` texts. */
  lemma {:induction false} SplitLinesRender(fields: seq<Field>)
    requires Writable(fields)
    ensures |SplitLines(Render(fields))| == |fields|
    ensures forall i :: 0 <= i < |fields| ==>
      SplitLines(Render(fields))[i] == fields[i].key + [EQUALS] + fields[i].value
  {
    if fields != [] {
      var f := fields[0];
      var x := f.key + [EQUALS] + f.value;
      assert NEWLINE !in x;
      assert Writable(fields[1..]);
      SplitLinesRender(fields[1..]);
      assert Render(fields) == x + [NEWLINE] + Render(fields[1..]);
      SplitLinesCons(x, Render(fields[1..]));
    }
  }

  lemma ParseLineField(m: Record, f: Field)
    requires EQUALS !in f.key
    ensures ParseLine(m, f.key + [EQUALS] + f.value) == m[f.key := f.value]
  {
    var line := f.key + [EQUALS] + f.value;
    assert line[|f.key|] == EQUALS;
    assert forall i :: 0 <= i < |f.key| ==> line[i] == f.key[i];
    assert IndexOf(line, EQUALS) == |f.key|;
    assert line[..|f.key|] == f.key;
    assert line[|f.key| + 1..] == f.value;
  }

  lemma {:induction false} ParseLinesFields(m: Record, lines: seq<Bytes>, fields: seq<Field>)
    requires Writable(fields) && |lines| == |fields|
    requires forall i :: 0 <= i < |fields| ==> lines[i] == fields[i].key + [EQUALS] + fields[i].value
    ensures ParseLines(m, lines) == Assign(m, fields)
    decreases |fields|
  {
    if fields != [] {
      ParseLineField(m, fields[0]);
      assert Writable(fields[1..]);
      ParseLinesFields(m[fields[0].key := fields[0].value], lines[1..], fields[1..]);
    }
  }

  /** Parsing a rendered file gives back its fields, a later key winning;
      this is where the round trip needs line-free keys and values. */
  lemma ParseRender(fields: seq<Field>)
    requires Writable(fields)
    ensures ParseRecord(Render(fields)) == Assign(map[], fields)
  {
    SplitLinesRender(fields);
    ParseLinesFields(map[], SplitLines(Render(fields)), fields);
  }

  /** A record key: upper-case letters and '_' only. */
  predicate IsKeyText(k: Bytes)
  {
    forall i :: 0 <= i < |k| ==> (0x41 <= k[i] <= 0x5A) || k[i] == UNDERSCORE
  }

  lemma KeyTextWritable(k: Bytes)
    requires IsKeyText(k)
    ensures EQUALS !in k && NEWLINE !in k
  {
  }

  /** Upper-case letters and underscores, as characters. */
  predicate IsKeyString(s: string)
  {
    forall i :: 0 <= i < |s| ==> ('A' <= s[i] <= 'Z') || s[i] == '_'
  }

  lemma AsciiKeyText(s: string)
    requires IsKeyString(s)
    ensures IsKeyText(Ascii(s))
  {
  }

  lemma ServiceKeyText() ensures IsKeyText(SERVICE_KEY) { AsciiKeyText("SERVICE"); }
  lemma UsernameKeyText() ensures IsKeyText(USERNAME_KEY) { AsciiKeyText("USERNAME"); }
  lemma PasswordKeyText() ensures IsKeyText(PASSWORD_KEY) { AsciiKeyText("PASSWORD"); }
  lemma AccountKeyText() ensures IsKeyText(ACCOUNT_KEY) { AsciiKeyText("ACCOUNT"); }
  lemma CodeKeyText() ensures IsKeyText(CODE_KEY) { AsciiKeyText("CODE"); }
  lemma NoteIdKeyText() ensures IsKeyText(NOTE_ID_KEY) { AsciiKeyText("NOTE_ID"); }
  lemma TextKeyText() ensures IsKeyText(TEXT_KEY) { AsciiKeyText("TEXT"); }

  lemma KeysWritable()
    ensures EQUALS !in SERVICE_KEY && NEWLINE !in SERVICE_KEY
    ensures EQUALS !in USERNAME_KEY && NEWLINE !in USERNAME_KEY
    ensures EQUALS !in PASSWORD_KEY && NEWLINE !in PASSWORD_KEY
    ensures EQUALS !in ACCOUNT_KEY && NEWLINE !in ACCOUNT_KEY
    ensures EQUALS !in CODE_KEY && NEWLINE !in CODE_KEY
    ensures EQUALS !in NOTE_ID_KEY && NEWLINE !in NOTE_ID_KEY
    ensures EQUALS !in TEXT_KEY && NEWLINE !in TEXT_KEY
    ensures SERVICE_KEY != USERNAME_KEY && SERVICE_KEY != PASSWORD_KEY && USERNAME_KEY != PASSWORD_KEY
    ensures ACCOUNT_KEY != USERNAME_KEY && ACCOUNT_KEY != CODE_KEY && USERNAME_KEY != CODE_KEY
    ensures NOTE_ID_KEY != TEXT_KEY
  {
    ServiceKeyText(); KeyTextWritable(SERVICE_KEY);
    UsernameKeyText(); KeyTextWritable(USERNAME_KEY);
    PasswordKeyText(); KeyTextWritable(PASSWORD_KEY);
    AccountKeyText(); KeyTextWritable(ACCOUNT_KEY);
    CodeKeyText(); KeyTextWritable(CODE_KEY);
    NoteIdKeyText(); KeyTextWritable(NOTE_ID_KEY);
    TextKeyText(); KeyTextWritable(TEXT_KEY);
    assert USERNAME_KEY[0] != PASSWORD_KEY[0];
  }

  // ---------- round trips ----------

  /** Saving a password and loading its file rebuilds an obscured password
      that reveals the same rows to the vault's key; an obscured entry comes
      back unchanged. */
  lemma PasswordRoundTrip(e: Entry)
    requires e.Password? && WellFormed(e)
    requires e.service != [] && NEWLINE !in e.service && NEWLINE !in e.user && TAB !in e.pwd
    ensures LoadPasswordFile(PasswordRecord(e)) == Some(NewPassword(e.service, e.user, e.pwd, true))
    ensures DecryptedRows(LoadPasswordFile(PasswordRecord(e)).value, KEY) == DecryptedRows(e, KEY)
    ensures e.enc ==> LoadPasswordFile(PasswordRecord(e)) == Some(e)
  {
    var fields := [Field(SERVICE_KEY, e.service), Field(USERNAME_KEY, e.user), Field(PASSWORD_KEY, XorEnc(e.pwd))];
    KeysWritable();
    EncodedNewlineIffTab(e.pwd);
    assert Writable(fields);
    ParseRender(fields);
    var m := ParseRecord(PasswordRecord(e));
    AssignLastWins(map[], fields, 0);
    AssignLastWins(map[], fields, 1);
    AssignLastWins(map[], fields, 2);
    assert Lookup(m, SERVICE_KEY) == e.service;
    assert Lookup(m, USERNAME_KEY) == e.user;
    assert Lookup(m, PASSWORD_KEY) == XorEnc(e.pwd);
    DecodeEncode(e.pwd);
  }

  /** The same for a backup code: the username travels in plaintext, the
      code encoded. */
  lemma BackupRoundTrip(e: Entry)
    requires e.BackupCode? && WellFormed(e)
    requires e.account != [] && NEWLINE !in e.account && NEWLINE !in e.user && TAB !in e.code
    ensures LoadBackupFile(BackupRecord(e)) == Some(NewBackupCode(e.account, e.user, e.code, true))
    ensures DecryptedRows(LoadBackupFile(BackupRecord(e)).value, KEY) == DecryptedRows(e, KEY)
    ensures e.enc ==> LoadBackupFile(BackupRecord(e)) == Some(e)
  {
    var fields := [Field(ACCOUNT_KEY, e.account), Field(USERNAME_KEY, e.user), Field(CODE_KEY, XorEnc(e.code))];
    KeysWritable();
    EncodedNewlineIffTab(e.code);
    assert Writable(fields);
    ParseRender(fields);
    var m := ParseRecord(BackupRecord(e));
    AssignLastWins(map[], fields, 0);
    AssignLastWins(map[], fields, 1);
    AssignLastWins(map[], fields, 2);
    assert Lookup(m, ACCOUNT_KEY) == e.account;
    assert Lookup(m, USERNAME_KEY) == e.user;
    assert Lookup(m, CODE_KEY) == XorEnc(e.code);
    DecodeEncode(e.code);
    DecodeEncode(e.user);
  }

  /** The decimal form of a serial has no line break. */
  lemma IntToStringHasNoNewline(i: int)
    ensures NEWLINE !in IntToString(i)
  {
    var id := IntToString(i);
    var d := if i < 0 then Digits(-i) else Digits(i);
    if i < 0 {
      assert id[1..] == d;
    }
    forall j | 0 <= j < |id|
      ensures id[j] != NEWLINE
    {
      if i < 0 && j > 0 {
        assert id[j] == d[j - 1];
        assert IsDigit(d[j - 1]);
      } else if i >= 0 {
        assert IsDigit(d[j]);
      }
    }
  }

  /** The same for a note, whose serial survives `to_string` then `stoi`. */
  lemma NoteRoundTrip(e: Entry)
    requires e.QuickNote? && WellFormed(e)
    requires INT_MIN <= e.serial <= INT_MAX && TAB !in e.note
    ensures NoteIdNumeric(NoteRecord(e))
    ensures LoadNoteFile(NoteRecord(e)) == Some(NewQuickNote(e.serial, e.note, true))
    ensures DecryptedRows(LoadNoteFile(NoteRecord(e)).value, KEY) == DecryptedRows(e, KEY)
    ensures e.enc ==> LoadNoteFile(NoteRecord(e)) == Some(e)
  {
    var id := IntToString(e.serial);
    var fields := [Field(NOTE_ID_KEY, id), Field(TEXT_KEY, XorEnc(e.note))];
    KeysWritable();
    EncodedNewlineIffTab(e.note);
    IntToStringHasNoNewline(e.serial);
    assert Writable(fields);
    ParseRender(fields);
    var m := ParseRecord(NoteRecord(e));
    AssignLastWins(map[], fields, 0);
    AssignLastWins(map[], fields, 1);
    assert Lookup(m, NOTE_ID_KEY) == id;
    assert Lookup(m, TEXT_KEY) == XorEnc(e.note);
    StoIOfIntToString(e.serial);
    DecodeEncode(e.note);
  }
}
