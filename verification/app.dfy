/**
  The application session with the screens stripped away: which screen is
  showing, the in-memory vault, and the two files. Dialog answers (the text
  typed into an entry or an `askstring` prompt, the yes/no of a confirmation)
  and the outcome of each file write are parameters.
*/
module App {
  import opened Wrappers
  import Base64
  import opened Utf8
  import opened Encoder
  import opened Text
  import opened Store
  import opened Persistence
  import opened MasterGate

  datatype Screen = SetupScreen | LoginScreen | MainScreen

  datatype Session = Session(screen: Screen, vault: Vault, dataFile: Option<string>, keyFile: Option<string>)

  /** Start-up: an empty vault, and the setup screen exactly when there is no
      master key file yet. */
  function Start(dataFile: Option<string>, keyFile: Option<string>): (s: Session)
    ensures Store.Valid(s.vault)
    ensures s.vault == Empty
    ensures s.screen == SetupScreen <==> keyFile.None?
    ensures s.screen != MainScreen
    ensures s.dataFile == dataFile && s.keyFile == keyFile
  {
    EmptyValid();
    Session(if keyFile.None? then SetupScreen else LoginScreen, Empty, dataFile, keyFile)
  }

  datatype SetupStatus = PasswordSet | EmptyPassword | SetupFailed

  /** `set_master`: refuses the empty password without touching anything;
      otherwise writes the key file and, if that worked, moves to login. */
  function SetMaster(c: Codec, s: Session, newPassword: string, w: Write): (r: (Session, SetupStatus))
    ensures newPassword == "" ==> r == (s, EmptyPassword)
    ensures r.1 == PasswordSet <==> newPassword != "" && w.Written?
    ensures r.1 == PasswordSet ==> r.0.screen == LoginScreen
    ensures r.1 != PasswordSet ==> r.0.screen == s.screen
    ensures r.0.vault == s.vault && r.0.dataFile == s.dataFile
    ensures r.1 == PasswordSet ==> r.0.keyFile == Some(Encrypt(c, newPassword))
    ensures r.1 == SetupFailed ==> r.0.keyFile == w.residue
  {
    if newPassword == "" then
      (s, EmptyPassword)
    else
      var saved := Setup(c, newPassword, w);
      if saved.ok then
        (s.(keyFile := saved.file, screen := LoginScreen), PasswordSet)
      else
        (s.(keyFile := saved.file), SetupFailed)
  }

  /** `attempt_login`: a password that `check_master_password`, as written,
      admits loads the vault from the data file and opens the main screen;
      anything else changes nothing. */
  function AttemptLogin(c: Codec, j: Json, s: Session, password: string): (r: (Session, Option<LoadStatus>))
    requires Store.Valid(s.vault)
    ensures Store.Valid(r.0.vault)
    ensures r.1.Some? <==> CheckAsWritten(c, s.keyFile, password)
    ensures r.1.None? ==> r.0 == s
    ensures r.1.Some? ==> r.0.screen == MainScreen && (r.0.vault, r.1.value) == Load(c, j, s.dataFile)
    ensures r.0.dataFile == s.dataFile && r.0.keyFile == s.keyFile
  {
    if CheckAsWritten(c, s.keyFile, password) then
      var (v, status) := Load(c, j, s.dataFile);
      (s.(vault := v, screen := MainScreen), Some(status))
    else
      (s, None)
  }

  datatype AddStatus = MissingField | Added | AddSaveFailed

  /** `add_entry`: strips the three fields; if any is then empty nothing
      changes. Otherwise the stripped site maps to the stripped username and
      the encoded stripped password, every other site is untouched, and the
      vault is saved. The in-memory vault is updated before the save, so it
      holds the change whether or not the save succeeds. */
  function AddEntry(c: Codec, j: Json, s: Session, website: string, username: string, password: string, w: Write)
    : (r: (Session, AddStatus))
    requires Store.Valid(s.vault)
    ensures Store.Valid(r.0.vault)
    ensures r.1 == MissingField <==> Strip(website) == "" || Strip(username) == "" || Strip(password) == ""
    ensures r.1 == MissingField ==> r.0 == s
    ensures r.1 != MissingField ==>
      && Strip(website) in r.0.vault.entries
      && r.0.vault.entries[Strip(website)] == Entry(Strip(username), Encrypt(c, Strip(password)))
      && (forall k :: k != Strip(website) ==> (k in r.0.vault.entries <==> k in s.vault.entries))
      && (forall k :: k != Strip(website) && k in s.vault.entries ==> r.0.vault.entries[k] == s.vault.entries[k])
    ensures r.1 != MissingField ==> (r.1 == Added <==> w.Written?)
    ensures r.1 == AddSaveFailed ==> r.0.dataFile == w.residue
    ensures r.0.screen == s.screen && r.0.keyFile == s.keyFile
  {
    var site, user, secret := Strip(website), Strip(username), Strip(password);
    if site == "" || user == "" || secret == "" then
      (s, MissingField)
    else
      var v := Put(s.vault, site, Entry(user, Encrypt(c, secret)));
      var saved := Save(c, j, v, w);
      (s.(vault := v, dataFile := saved.file), if saved.ok then Added else AddSaveFailed)
  }

  /** Each of the three fields has a character that is not whitespace. */
  predicate Filled(website: string, username: string, password: string) {
    !AllSpace(website) && !AllSpace(username) && !AllSpace(password)
  }

  /** An add is refused for a missing field exactly when some field is all
      whitespace. */
  lemma FilledIsAccepted(c: Codec, j: Json, s: Session, website: string, username: string, password: string, w: Write)
    requires Store.Valid(s.vault)
    ensures AddEntry(c, j, s, website, username, password, w).1 != MissingField <==> Filled(website, username, password)
  {
    StripEmptyIffAllSpace(website);
    StripEmptyIffAllSpace(username);
    StripEmptyIffAllSpace(password);
  }

  datatype SearchResult = Cancelled | NotFound | Found(site: string, username: string, password: string)

  /** `search_entry`: a cancelled or empty prompt does nothing; otherwise the
      query is looked up exactly as typed (not stripped), and a hit shows the
      username with the decoded password. */
  function SearchEntry(c: Codec, s: Session, query: Option<string>): (r: SearchResult)
    ensures r == Cancelled <==> query.None? || query.value == ""
    ensures r == NotFound <==> query.Some? && query.value != "" && query.value !in s.vault.entries
    ensures r.Found? ==>
      && query == Some(r.site)
      && r.site in s.vault.entries
      && r.username == s.vault.entries[r.site].username
      && r.password == Decrypt(c, s.vault.entries[r.site].password)
  {
    match query
    case None => Cancelled
    case Some(q) =>
      if q == "" then Cancelled
      else if q in s.vault.entries then
        var e := s.vault.entries[q];
        Found(q, e.username, Decrypt(c, e.password))
      else NotFound
  }

  datatype Row = Row(site: string, username: string, password: string)

  /** `view_all_passwords`: one row per site, in insertion order, with the
      decoded password. */
  function ViewAll(c: Codec, s: Session): (rows: seq<Row>)
    requires Store.Valid(s.vault)
    ensures |rows| == |s.vault.order|
    ensures forall i :: 0 <= i < |rows| ==> rows[i].site == s.vault.order[i]
  {
    var items := Items(s.vault);
    seq(|items|, i requires 0 <= i < |items| =>
      Row(items[i].0, items[i].1.username, Decrypt(c, items[i].1.password)))
  }

  datatype DeleteStatus = DeleteCancelled | DeleteNotFound | Declined | Deleted | DeleteSaveFailed

  /** `delete_entry`: a cancelled or empty prompt does nothing; an absent site
      is reported and nothing changes; a present site is removed only when the
      user confirms, and then the vault is saved. As with adding, the vault is
      changed before the save and stays changed if the save fails. */
  function DeleteEntry(c: Codec, j: Json, s: Session, query: Option<string>, confirm: bool, w: Write)
    : (r: (Session, DeleteStatus))
    requires Store.Valid(s.vault)
    ensures Store.Valid(r.0.vault)
    ensures r.1 in {DeleteCancelled, DeleteNotFound, Declined} ==> r.0 == s
    ensures r.1 == DeleteCancelled <==> query.None? || query.value == ""
    ensures r.1 == DeleteNotFound <==> query.Some? && query.value != "" && query.value !in s.vault.entries
    ensures r.1 == Declined <==> query.Some? && query.value in s.vault.entries && query.value != "" && !confirm
    ensures r.1 in {Deleted, DeleteSaveFailed} ==>
      && query.value in s.vault.entries
      && r.0.vault.entries.Keys == s.vault.entries.Keys - {query.value}
      && (forall k :: k in r.0.vault.entries ==> r.0.vault.entries[k] == s.vault.entries[k])
    ensures r.1 in {Deleted, DeleteSaveFailed} ==> (r.1 == Deleted <==> w.Written?)
    ensures r.1 == DeleteSaveFailed ==> r.0.dataFile == w.residue
    ensures r.0.screen == s.screen && r.0.keyFile == s.keyFile
  {
    match query
    case None => (s, DeleteCancelled)
    case Some(q) =>
      if q == "" then (s, DeleteCancelled)
      else if q !in s.vault.entries then (s, DeleteNotFound)
      else if !confirm then (s, Declined)
      else
        var v := Remove(s.vault, q);
        var saved := Save(c, j, v, w);
        (s.(vault := v, dataFile := saved.file), if saved.ok then Deleted else DeleteSaveFailed)
  }

  // ---------------------------------------------------------------------
  // The master gate across the session

  /** Login attempts one after another. */
  function LoginAttempts(c: Codec, j: Json, s: Session, passwords: seq<string>): (r: Session)
    requires Store.Valid(s.vault)
    ensures Store.Valid(r.vault)
    decreases |passwords|
  {
    if |passwords| == 0 then s
    else LoginAttempts(c, j, AttemptLogin(c, j, s, passwords[0]).0, passwords[1..])
  }

  /** Without a master key file no sequence of login attempts reaches the
      main screen: the first run stays on the setup screen. */
  lemma {:induction false} NoKeyFileNeverUnlocks(c: Codec, j: Json, dataFile: Option<string>, passwords: seq<string>)
    ensures LoginAttempts(c, j, Start(dataFile, None), passwords) == Start(dataFile, None)
    decreases |passwords|
  {
    if |passwords| > 0 {
      NoKeyFileNeverUnlocks(c, j, dataFile, passwords[1..]);
    }
  }

  /** After the master password `p` is set, a login with `q` opens the main
      screen exactly when `q == p`; `p + "x"`, for one, is refused. */
  lemma SetupThenLogin(c: Codec, j: Json, s: Session, p: string, q: string)
    requires Lawful(c) && Store.Valid(s.vault) && p != ""
    ensures var s1 := SetMaster(c, s, p, Written).0;
      AttemptLogin(c, j, s1, q).0.screen == MainScreen <==> q == p
  {
    SetupThenCheckAsWritten(c, p, q);
  }

  /** A key file left empty by a failed setup write, or any key file that is
      not valid Base64, lets the empty password through to the main screen. */
  lemma BlankKeyFileOpensVault(c: Codec, j: Json, dataFile: Option<string>, k: string)
    requires Lawful(c)
    requires k == "" || Base64.Decode(k).None?
    ensures AttemptLogin(c, j, Start(dataFile, Some(k)), "").0.screen == MainScreen
  {
    if k == "" {
      AsWrittenAdmitsEmptyOnBlankKeyFile(c);
    }
  }

  /** A setup write that fails after truncating the key file leaves it empty,
      and after a restart the empty password opens the main screen. */
  lemma FailedSetupOpensVault(c: Codec, j: Json, s: Session, p: string, dataFile: Option<string>)
    requires Lawful(c) && p != ""
    ensures var r := SetMaster(c, s, p, Failed(Some("")));
      && r.1 == SetupFailed
      && AttemptLogin(c, j, Start(dataFile, r.0.keyFile), "").0.screen == MainScreen
  {
    BlankKeyFileOpensVault(c, j, dataFile, "");
  }

  // ---------------------------------------------------------------------
  // The store seen through search and the listing

  /** After an accepted add, whether or not it was saved, searching the
      stripped site finds the stripped username and the stripped password. */
  lemma AddThenSearch(c: Codec, j: Json, s: Session, website: string, username: string, password: string, w: Write)
    requires Lawful(c) && Store.Valid(s.vault)
    requires Filled(website, username, password)
    ensures SearchEntry(c, AddEntry(c, j, s, website, username, password, w).0, Some(Strip(website)))
      == Found(Strip(website), Strip(username), Strip(password))
  {
    FilledIsAccepted(c, j, s, website, username, password, w);
    DecryptEncrypt(c, Strip(password));
  }

  /** Every row of the listing is what searching its site shows, the sites
      in the listing are pairwise distinct, and every hit is in the listing. */
  lemma ViewAllAgreesWithSearch(c: Codec, s: Session)
    requires Store.Valid(s.vault)
    ensures var rows := ViewAll(c, s);
      && (forall i :: 0 <= i < |rows| && rows[i].site != "" ==>
            SearchEntry(c, s, Some(rows[i].site)) == Found(rows[i].site, rows[i].username, rows[i].password))
      && (forall i, k :: 0 <= i < k < |rows| ==> rows[i].site != rows[k].site)
      && (forall q :: SearchEntry(c, s, Some(q)).Found? ==>
            Row(q, SearchEntry(c, s, Some(q)).username, SearchEntry(c, s, Some(q)).password) in rows)
  {
    var rows := ViewAll(c, s);
    forall q | SearchEntry(c, s, Some(q)).Found?
      ensures Row(q, SearchEntry(c, s, Some(q)).username, SearchEntry(c, s, Some(q)).password) in rows
    {
      var i :| 0 <= i < |s.vault.order| && s.vault.order[i] == q;
      assert rows[i] == Row(q, SearchEntry(c, s, Some(q)).username, SearchEntry(c, s, Some(q)).password);
    }
  }

  /** Adding a site that is not stored yet appends its row to the listing. */
  lemma AddNewAppendsRow(c: Codec, j: Json, s: Session, website: string, username: string, password: string, w: Write)
    requires Lawful(c) && Store.Valid(s.vault)
    requires Filled(website, username, password)
    requires Strip(website) !in s.vault.entries
    ensures ViewAll(c, AddEntry(c, j, s, website, username, password, w).0)
      == ViewAll(c, s) + [Row(Strip(website), Strip(username), Strip(password))]
  {
    FilledIsAccepted(c, j, s, website, username, password, w);
    var r := AddEntry(c, j, s, website, username, password, w).0;
    var e := Entry(Strip(username), Encrypt(c, Strip(password)));
    PutAppends(s.vault, Strip(website), e);
    DecryptEncrypt(c, Strip(password));
    var lhs, rhs := ViewAll(c, r), ViewAll(c, s) + [Row(Strip(website), Strip(username), Strip(password))];
    assert |lhs| == |rhs|;
    forall i | 0 <= i < |lhs|
      ensures lhs[i] == rhs[i]
    {
      assert Items(r.vault)[i] == (Items(s.vault) + [(Strip(website), e)])[i];
    }
  }

  /** Adding a site that is already stored overwrites its row in place: the
      listing keeps its order and still holds one row for that site. */
  lemma AddExistingOverwritesRow(c: Codec, j: Json, s: Session, website: string, username: string, password: string, w: Write, i: nat)
    requires Lawful(c) && Store.Valid(s.vault)
    requires Filled(website, username, password)
    requires i < |s.vault.order| && s.vault.order[i] == Strip(website)
    ensures ViewAll(c, AddEntry(c, j, s, website, username, password, w).0)
      == ViewAll(c, s)[i := Row(Strip(website), Strip(username), Strip(password))]
  {
    FilledIsAccepted(c, j, s, website, username, password, w);
    var r := AddEntry(c, j, s, website, username, password, w).0;
    var e := Entry(Strip(username), Encrypt(c, Strip(password)));
    PutKeepsPosition(s.vault, i, e);
    DecryptEncrypt(c, Strip(password));
    var lhs, rhs := ViewAll(c, r), ViewAll(c, s)[i := Row(Strip(website), Strip(username), Strip(password))];
    assert |lhs| == |rhs|;
    forall k | 0 <= k < |lhs|
      ensures lhs[k] == rhs[k]
    {
      assert Items(r.vault)[k] == Items(s.vault)[i := (Strip(website), e)][k];
    }
  }

  /** Two adds for the same site leave exactly one entry for it, holding the
      second username and password. */
  lemma AddTwiceKeepsOneEntry(c: Codec, j: Json, s: Session, website: string,
                              u1: string, p1: string, w1: Write, u2: string, p2: string, w2: Write)
    requires Lawful(c) && Store.Valid(s.vault)
    requires Strip(website) != "" && Strip(u1) != "" && Strip(p1) != "" && Strip(u2) != "" && Strip(p2) != ""
    ensures var s1 := AddEntry(c, j, s, website, u1, p1, w1).0;
      var s2 := AddEntry(c, j, s1, website, u2, p2, w2).0;
      && SearchEntry(c, s2, Some(Strip(website))) == Found(Strip(website), Strip(u2), Strip(p2))
      && s2.vault.order == s1.vault.order
      && (exists i :: 0 <= i < |ViewAll(c, s2)| && ViewAll(c, s2)[i].site == Strip(website)
            && forall k :: 0 <= k < |ViewAll(c, s2)| && k != i ==> ViewAll(c, s2)[k].site != Strip(website))
  {
    var s1 := AddEntry(c, j, s, website, u1, p1, w1).0;
    var s2 := AddEntry(c, j, s1, website, u2, p2, w2).0;
    AddThenSearch(c, j, s1, website, u2, p2, w2);
    assert Strip(website) in s1.vault.entries;
    PutExistingKeepsOrder(s1.vault, Strip(website), Entry(Strip(u2), Encrypt(c, Strip(p2))));
    var i :| 0 <= i < |s2.vault.order| && s2.vault.order[i] == Strip(website);
    SingleRow(c, s2, i);
  }

  /** A stored site has exactly one row in the listing. */
  lemma SingleRow(c: Codec, s: Session, i: nat)
    requires Store.Valid(s.vault) && i < |s.vault.order|
    ensures var rows := ViewAll(c, s);
      && rows[i].site == s.vault.order[i]
      && forall k :: 0 <= k < |rows| && k != i ==> rows[k].site != s.vault.order[i]
  {
  }

  /** A confirmed delete of a stored site removes its row and keeps the other
      rows in order; searching it afterwards finds nothing. */
  lemma DeleteRemovesRow(c: Codec, j: Json, s: Session, i: nat, w: Write)
    requires Store.Valid(s.vault) && i < |s.vault.order| && s.vault.order[i] != ""
    ensures var r := DeleteEntry(c, j, s, Some(s.vault.order[i]), true, w).0;
      && ViewAll(c, r) == ViewAll(c, s)[..i] + ViewAll(c, s)[i + 1..]
      && SearchEntry(c, r, Some(s.vault.order[i])) == NotFound
  {
    var site := s.vault.order[i];
    var r := DeleteEntry(c, j, s, Some(site), true, w).0;
    assert r.vault == Remove(s.vault, site);
    RemoveDropsRow(s.vault, i);
    RowsOfItems(c, s, r, i);
  }

  lemma RowsOfItems(c: Codec, s: Session, r: Session, i: nat)
    requires Store.Valid(s.vault) && Store.Valid(r.vault) && i < |s.vault.order|
    requires Items(r.vault) == Items(s.vault)[..i] + Items(s.vault)[i + 1..]
    ensures ViewAll(c, r) == ViewAll(c, s)[..i] + ViewAll(c, s)[i + 1..]
  {
    var lhs, rhs := ViewAll(c, r), ViewAll(c, s)[..i] + ViewAll(c, s)[i + 1..];
    assert |lhs| == |rhs|;
    forall k | 0 <= k < |lhs|
      ensures lhs[k] == rhs[k]
    {
      if k < i {
        assert Items(r.vault)[k] == Items(s.vault)[k];
        assert rhs[k] == ViewAll(c, s)[k];
      } else {
        assert Items(r.vault)[k] == Items(s.vault)[k + 1];
        assert rhs[k] == ViewAll(c, s)[k + 1];
      }
    }
  }

  // ---------------------------------------------------------------------
  // Memory and disk

  /** The data file, loaded, gives back the in-memory vault. */
  ghost predicate Synced(c: Codec, j: Json, s: Session) {
    Load(c, j, s.dataFile).0 == s.vault
  }

  /** A saved add or delete leaves the data file in step with memory. */
  lemma SavedChangesSync(c: Codec, j: Json, s: Session, website: string, username: string, password: string,
                         query: Option<string>, w: Write)
    requires Lawful(c) && Faithful(j) && Store.Valid(s.vault)
    ensures AddEntry(c, j, s, website, username, password, w).1 == Added ==>
      Synced(c, j, AddEntry(c, j, s, website, username, password, w).0)
    ensures DeleteEntry(c, j, s, query, true, w).1 == Deleted ==>
      Synced(c, j, DeleteEntry(c, j, s, query, true, w).0)
  {
    var a := AddEntry(c, j, s, website, username, password, w);
    if a.1 == Added {
      LoadAfterSave(c, j, a.0.vault);
    }
    var d := DeleteEntry(c, j, s, query, true, w);
    if d.1 == Deleted {
      LoadAfterSave(c, j, d.0.vault);
    }
  }

  /** A failed save that leaves the old file in place leaves memory ahead of
      the disk: a new site is in memory but not in what the file loads to. */
  lemma FailedSaveLeavesMemoryAhead(c: Codec, j: Json, s: Session, website: string, username: string, password: string)
    requires Store.Valid(s.vault) && Synced(c, j, s)
    requires Strip(website) !in s.vault.entries
    requires Filled(website, username, password)
    ensures var r := AddEntry(c, j, s, website, username, password, Failed(s.dataFile)).0;
      && Strip(website) in r.vault.entries
      && Strip(website) !in Load(c, j, r.dataFile).0.entries
  {
    FilledIsAccepted(c, j, s, website, username, password, Failed(s.dataFile));
  }

  // ---------------------------------------------------------------------
  // A whole session

  /** First run with master password `p`: set it, log in to an empty vault,
      add an entry whose fields carry no surrounding whitespace, find it,
      delete it, and find nothing. */
  lemma FirstRunScenario(c: Codec, j: Json, p: string, site: string, user: string, secret: string)
    requires Lawful(c) && Faithful(j)
    requires p != "" && site != "" && user != "" && secret != ""
    requires Strip(site) == site && Strip(user) == user && Strip(secret) == secret
    ensures
      var s0 := Start(None, None);
      var (s1, setup) := SetMaster(c, s0, p, Written);
      var (s2, loaded) := AttemptLogin(c, j, s1, p);
      var (s3, added) := AddEntry(c, j, s2, site, user, secret, Written);
      var (s4, deleted) := DeleteEntry(c, j, s3, Some(site), true, Written);
      && s0.screen == SetupScreen
      && setup == PasswordSet
      && loaded == Some(NoFile) && s2.screen == MainScreen && s2.vault == Empty
      && added == Added
      && SearchEntry(c, s3, Some(site)) == Found(site, user, secret)
      && deleted == Deleted
      && SearchEntry(c, s4, Some(site)) == NotFound
  {
    var s0 := Start(None, None);
    var s1 := SetMaster(c, s0, p, Written).0;
    SetupThenCheckAsWritten(c, p, p);
    var s2 := AttemptLogin(c, j, s1, p).0;
    assert s2.vault == Empty;
    AddThenSearch(c, j, s2, site, user, secret, Written);
    var s3 := AddEntry(c, j, s2, site, user, secret, Written).0;
    assert site in s3.vault.entries;
  }

  /** The first run with concrete values. */
  lemma FirstRunExample(c: Codec, j: Json)
    requires Lawful(c) && Faithful(j)
    ensures
      var s2 := AttemptLogin(c, j, SetMaster(c, Start(None, None), "Tr0ub4dor", Written).0, "Tr0ub4dor").0;
      var s3 := AddEntry(c, j, s2, "example.com", "alice", "s3cret!", Written).0;
      SearchEntry(c, s3, Some("example.com")) == Found("example.com", "alice", "s3cret!")
  {
    StripUntrimmed("example.com");
    StripUntrimmed("alice");
    StripUntrimmed("s3cret!");
    FirstRunScenario(c, j, "Tr0ub4dor", "example.com", "alice", "s3cret!");
  }
}
