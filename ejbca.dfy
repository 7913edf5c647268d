/**
 * The configuration objects of ejbca/__init__.py: the credentials a client presents and the
 * server it talks to, and the module defaults. Whether a file exists is a question about the
 * filesystem at call time; it is given as the set of paths that exist then.
 */
module Ejbca {
  import opened Base
  import opened PyObjects

  type Path = seq<byte>

  /** The module-level `tracing` switch; diagnostics are off unless a caller turns them on. */
  const Tracing: bool := false

  /** The host the module-level `server` object names. */
  const DefaultServerName: string := "ca.primekey.se"

  /** The EST alias every new `Server` starts with. */
  const DefaultAlias: string := "est"

  /** A supplied path that does not exist. */
  predicate Missing(existing: set<Path>, path: Option<Path>)
  {
    path.Some? && path.value !in existing
  }

  /** `Creds.__checkfile`, applied only to a supplied path. */
  function CheckFile(existing: set<Path>, path: Option<Path>): (r: Result<(), PyError>)
    ensures r.Err? <==> Missing(existing, path)
    ensures r.Err? ==> r.error == FileNotFoundError(path.value)
  {
    if Missing(existing, path) then Err(FileNotFoundError(path.value)) else Ok(())
  }

  /** The checks of `Creds.__init__`, run in the order bundle, cert, key; the first failure is raised. */
  function CheckCredsFiles(existing: set<Path>, bundle: Option<Path>, cert: Option<Path>, key: Option<Path>): (r: Result<(), PyError>)
    ensures r.Ok? <==> !Missing(existing, bundle) && !Missing(existing, cert) && !Missing(existing, key)
    ensures Missing(existing, bundle) ==> r == Err(FileNotFoundError(bundle.value))
    ensures !Missing(existing, bundle) && Missing(existing, cert) ==> r == Err(FileNotFoundError(cert.value))
    ensures !Missing(existing, bundle) && !Missing(existing, cert) && Missing(existing, key) ==> r == Err(FileNotFoundError(key.value))
  {
    var _ :- CheckFile(existing, bundle);
    var _ :- CheckFile(existing, cert);
    CheckFile(existing, key)
  }

  /** With no paths supplied there is nothing to check, whatever the filesystem holds. */
  lemma NoPathsNoFailure(existing: set<Path>)
    ensures CheckCredsFiles(existing, None, None, None) == Ok(())
  {
  }

  /** Whether construction succeeds depends only on whether the supplied paths exist. */
  lemma CheckCredsFilesLocal(e1: set<Path>, e2: set<Path>, bundle: Option<Path>, cert: Option<Path>, key: Option<Path>)
    requires forall p :: p in [bundle, cert, key] && p.Some? ==> (p.value in e1 <==> p.value in e2)
    ensures CheckCredsFiles(e1, bundle, cert, key) == CheckCredsFiles(e2, bundle, cert, key)
  {
    assert bundle in [bundle, cert, key] && cert in [bundle, cert, key] && key in [bundle, cert, key];
  }

  class Creds {
    var secure: bool
    var bundle: Option<Path>
    var cert: Option<Path>
    var key: Option<Path>

    /** The state a successful `Creds.__init__` leaves: every field is its argument, verbatim. */
    constructor Init(secure: bool, bundle: Option<Path>, cert: Option<Path>, key: Option<Path>)
      ensures this.secure == secure && this.bundle == bundle && this.cert == cert && this.key == key
    {
      this.secure := secure;
      this.bundle := bundle;
      this.cert := cert;
      this.key := key;
    }

    /** `Creds(secure, bundle, cert, key)`: FileNotFoundError for the first supplied path that does not exist. */
    static method New(existing: set<Path>, secure: bool := false, bundle: Option<Path> := None, cert: Option<Path> := None, key: Option<Path> := None)
      returns (r: Result<Creds, PyError>)
      ensures r.Ok? <==> CheckCredsFiles(existing, bundle, cert, key).Ok?
      ensures r.Err? ==> r.error == CheckCredsFiles(existing, bundle, cert, key).error
      ensures r.Ok? ==> fresh(r.value)
      ensures r.Ok? ==> r.value.secure == secure && r.value.bundle == bundle && r.value.cert == cert && r.value.key == key
    {
      var check := CheckCredsFiles(existing, bundle, cert, key);
      if check.Err? {
        r := Err(check.error);
      } else {
        var c := new Creds.Init(secure, bundle, cert, key);
        r := Ok(c);
      }
    }

    /** `Creds()`: not secure and no files, which never fails. */
    static method Default(existing: set<Path>) returns (c: Creds)
      ensures fresh(c)
      ensures !c.secure && c.bundle == None && c.cert == None && c.key == None
    {
      NoPathsNoFailure(existing);
      var r := New(existing);
      c := r.value;
    }

    method SetSecure(value: bool)
      modifies this`secure
      ensures secure == value
      ensures bundle == old(bundle) && cert == old(cert) && key == old(key)
    {
      secure := value;
    }

    /** The setters store any path, existing or not: no check is made. */
    method SetBundle(value: Option<Path>)
      modifies this`bundle
      ensures bundle == value
      ensures secure == old(secure) && cert == old(cert) && key == old(key)
    {
      bundle := value;
    }

    method SetCert(value: Option<Path>)
      modifies this`cert
      ensures cert == value
      ensures secure == old(secure) && bundle == old(bundle) && key == old(key)
    {
      cert := value;
    }

    method SetKey(value: Option<Path>)
      modifies this`key
      ensures key == value
      ensures secure == old(secure) && bundle == old(bundle) && cert == old(cert)
    {
      key := value;
    }
  }

  class Server {
    var name: string
    var alias: string

    /** `Server(name)`: the alias starts as 'est'. */
    constructor (name: string)
      ensures this.name == name && alias == DefaultAlias
    {
      this.name := name;
      alias := DefaultAlias;
    }

    method SetName(name: string)
      modifies this`name
      ensures this.name == name && alias == old(alias)
    {
      this.name := name;
    }

    method SetAlias(alias: string)
      modifies this`alias
      ensures this.alias == alias && name == old(name)
    {
      this.alias := alias;
    }
  }

  /** The module-level `server = Server('ca.primekey.se')`. */
  method DefaultServer() returns (s: Server)
    ensures fresh(s)
    ensures s.name == DefaultServerName && s.alias == DefaultAlias
  {
    s := new Server(DefaultServerName);
  }
}
