/**
  Loading and saving the data file. The file holds the Encoder form of the
  JSON text of the whole vault; every save rewrites the whole file. The file
  is modelled as `Option<string>` (`None` when it does not exist) and the JSON
  library as an abstract serialiser/parser pair over the item list.
*/
module Persistence {
  import opened Wrappers
  import Base64
  import opened Utf8
  import opened Encoder
  import opened Store

  /** `json.dumps` and `json.loads` of the vault document. A parse that fails,
      or yields something other than an object of entries, is `None`. */
  datatype Json = Json(dump: seq<Item> -> string, parse: string -> Option<seq<Item>>)

  /** What the vault relies on from the JSON library, taken as an assumption:
      the empty text is not a document, and a dumped item list without
      repeated sites is non-empty text that parses back to the same list. */
  ghost predicate Faithful(j: Json) {
    && j.parse("") == None
    && (forall ps: seq<Item> :: UniqueSites(ps) ==> j.dump(ps) != "" && j.parse(j.dump(ps)) == Some(ps))
  }

  /** How an attempt to write a file ended. A failed write leaves `residue`
      behind: the old content, a truncated file, or no file at all. */
  datatype Write = Written | Failed(residue: Option<string>)

  /** Which branch of the load was taken. */
  datatype LoadStatus = NoFile | EmptyFile | Loaded | Corrupt

  /** Reads the vault from the data file. A missing file, an empty file and a
      file whose content does not decode to a document all give the empty
      vault; only the last is reported as corrupt. The file is not touched. */
  function Load(c: Codec, j: Json, file: Option<string>): (r: (Vault, LoadStatus))
    ensures Valid(r.0)
    ensures r.1 != Loaded ==> r.0 == Empty
    ensures r.1 == NoFile <==> file.None?
    ensures r.1 == EmptyFile <==> file == Some("")
    ensures r.1 == Loaded ==> j.parse(Decrypt(c, file.value)).Some?
    ensures r.1 == Corrupt <==> file.Some? && file.value != "" && j.parse(Decrypt(c, file.value)).None?
  {
    EmptyValid();
    match file
    case None => (Empty, NoFile)
    case Some(content) =>
      if content == "" then
        (Empty, EmptyFile)
      else
        match j.parse(Decrypt(c, content))
        case None => (Empty, Corrupt)
        case Some(items) => (FromItems(items), Loaded)
  }

  datatype Saved = Saved(file: Option<string>, ok: bool)

  /** Writes the whole vault to the data file and reports whether the write
      succeeded; a failed write is reported, never raised. */
  function Save(c: Codec, j: Json, v: Vault, w: Write): (r: Saved)
    requires Valid(v)
    ensures r.ok <==> w.Written?
    ensures !r.ok ==> r.file == w.residue
    ensures r.ok ==> r.file.Some? && |r.file.value| % 4 == 0
  {
    match w
    case Written => Saved(Some(Encrypt(c, j.dump(Items(v)))), true)
    case Failed(residue) => Saved(residue, false)
  }

  /** Saving and loading again gives back the same vault, keys, entries and
      order, including the empty vault. */
  lemma LoadAfterSave(c: Codec, j: Json, v: Vault)
    requires Lawful(c) && Faithful(j) && Valid(v)
    ensures Load(c, j, Save(c, j, v, Written).file) == (v, Loaded)
  {
    var text := j.dump(Items(v));
    ItemsUnique(v);
    assert text != "" && j.parse(text) == Some(Items(v));
    DecryptEncrypt(c, text);
    EncryptEmpty(c, text);
    FromItemsOfItems(v);
  }

  /** A non-empty data file that is not valid Base64, or whose bytes are not
      valid UTF-8, loads as corrupt with the empty vault. */
  lemma GarbageIsCorrupt(c: Codec, j: Json, content: string)
    requires Faithful(j)
    requires content != ""
    requires Base64.Decode(content).None? || c.decode(Base64.Decode(content).value).None?
    ensures Load(c, j, Some(content)) == (Empty, Corrupt)
  {
  }
}
