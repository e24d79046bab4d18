/** The file system as the stores see it through QFile and QJsonDocument:
    a map from path to what the file holds, and a set of paths that cannot
    be opened. Directories are not modelled. */
module Files {
  import opened Json

  /** A file holds a JSON document, or text that QJsonDocument::fromJson
      cannot parse (which it reads as a null document). */
  datatype Content = Document(root: Value) | Unparsable

  /** The value QJsonDocument::fromJson(f.readAll()) yields. */
  function Parse(c: Content): Value {
    if c.Document? then c.root else Null
  }

  /** The files after writing `doc` to `path`; a path that cannot be opened
      is left as it was. */
  function AfterWrite(files: map<string, Content>, locked: set<string>, path: string, doc: Value): (r: map<string, Content>)
    ensures path !in locked ==> path in r && r[path] == Document(doc)
    ensures forall p :: p != path ==> (p in r <==> p in files) && (p in r ==> r[p] == files[p])
    ensures path in locked ==> r == files
  {
    if path in locked then files else files[path := Document(doc)]
  }

  class Disk {
    var files: map<string, Content>
    /** Paths whose QFile::open fails, for reading and for writing. */
    var locked: set<string>

    constructor (files: map<string, Content>, locked: set<string>)
      ensures this.files == files && this.locked == locked
    {
      this.files := files;
      this.locked := locked;
    }

    /** QFile::open(WriteOnly) followed by a write of the document. */
    method Write(path: string, doc: Value) returns (ok: bool)
      modifies this
      ensures ok == (path !in locked)
      ensures files == AfterWrite(old(files), old(locked), path, doc)
      ensures locked == old(locked)
    {
      ok := path !in locked;
      if ok {
        files := files[path := Document(doc)];
      }
    }

    /** QFile::remove; its result is ignored by every caller. */
    method Remove(path: string)
      modifies this
      ensures files == old(files) - {path} && locked == old(locked)
    {
      files := files - {path};
    }
  }
}
