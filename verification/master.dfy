/**
  The master password gate. The master key file holds the Encoder form of the
  master password; it is modelled as `Option<string>`, `None` meaning the
  vault has not been set up yet.
*/
module MasterGate {
  import opened Wrappers
  import opened Utf8
  import opened Encoder
  import opened Persistence

  /** `setup_master_password`: writes the encoded password, replacing any
      earlier key file, and reports whether the write succeeded. It does not
      refuse the empty password; the setup screen does that. */
  function Setup(c: Codec, password: string, w: Write): (r: Saved)
    ensures r.ok <==> w.Written?
    ensures !r.ok ==> r.file == w.residue
    ensures r.ok ==> r.file.Some?
  {
    match w
    case Written => Saved(Some(Encrypt(c, password)), true)
    case Failed(residue) => Saved(residue, false)
  }

  /** `check_master_password` as written: without a key file nothing is
      admitted; otherwise the candidate is compared with the decoded key file,
      which is the empty text whenever the file does not decode. */
  function CheckAsWritten(c: Codec, keyFile: Option<string>, candidate: string): (admitted: bool)
    ensures keyFile.None? ==> !admitted
    ensures admitted ==> candidate == Decrypt(c, keyFile.value)
    ensures keyFile.Some? && candidate == Decrypt(c, keyFile.value) ==> admitted
  {
    match keyFile
    case None => false
    case Some(stored) => candidate == Decrypt(c, stored)
  }

  /** An empty key file, as a write that failed after truncating leaves
      behind, admits the empty candidate under the check as written. */
  lemma AsWrittenAdmitsEmptyOnBlankKeyFile(c: Codec)
    requires Lawful(c)
    ensures CheckAsWritten(c, Some(""), "")
  {
    DecryptShortOrEmpty(c, "");
  }

  /** So does any key file that is not valid Base64, such as `"!!!!"`. */
  lemma AsWrittenAdmitsEmptyOnGarbageKeyFile(c: Codec)
    ensures CheckAsWritten(c, Some("!!!!"), "")
  {
    assert !Base64.IsAlphabetChar('!');
    assert Base64.DecodeQuad("!!!!", true).None?;
  }

  /** The gate the setup screen evidently intends: the candidate must equal
      the stored master password, and a key file that decodes to nothing (the
      setup screen never stores the empty password) admits no one. */
  function Check(c: Codec, keyFile: Option<string>, candidate: string): (admitted: bool)
    ensures keyFile.None? ==> !admitted
    ensures admitted ==> candidate != ""
    ensures admitted ==> CheckAsWritten(c, keyFile, candidate)
  {
    match keyFile
    case None => false
    case Some(stored) =>
      var master := Decrypt(c, stored);
      master != "" && candidate == master
  }

  /** Only the key file that `Setup(candidate)` writes admits `candidate`. */
  lemma CheckOnlyFromSetup(c: Codec, keyFile: Option<string>, candidate: string)
    requires Lawful(c)
    ensures Check(c, keyFile, candidate) <==>
      candidate != "" && keyFile == Setup(c, candidate, Written).file
  {
    if keyFile.Some? && candidate != "" {
      DecryptIsExactlyEncrypt(c, keyFile.value, candidate);
    }
  }

  /** After setting up `p`, the gate admits `p` and nothing else. */
  lemma SetupThenCheck(c: Codec, p: string, q: string)
    requires Lawful(c) && p != ""
    ensures Check(c, Setup(c, p, Written).file, q) <==> q == p
  {
    DecryptEncrypt(c, p);
  }

  /** The same holds of the check as written, for every password. */
  lemma SetupThenCheckAsWritten(c: Codec, p: string, q: string)
    requires Lawful(c)
    ensures CheckAsWritten(c, Setup(c, p, Written).file, q) <==> q == p
  {
    DecryptEncrypt(c, p);
  }
}
