/**
 * Path confinement: `sanitize_and_validate_path` and the `realpath` every
 * handler applies to its result. `realpath` and `urldecode` are not
 * interpreted: they are parameters of the request environment.
 */
module PathGuard {
  import opened Wrappers
  import opened TextOps

  /**
   * What one request sees of its surroundings: the base directory (ABSPATH,
   * with its trailing slash), the operating system's canonicaliser (`realpath`,
   * `None` for `false`) and `urldecode`.
   */
  datatype Env = Env(base: string, canon: string -> Option<string>, decode: string -> string)

  /** `realpath(base_dir)`; a failure reads as "" wherever PHP uses it as a string. */
  function BaseReal(env: Env): string
  {
    env.canon(env.base).GetOr("")
  }

  /** The decoded request with leading and trailing `/` removed. */
  function Requested(env: Env, path: string): string
  {
    Trim(env.decode(path), {'/'})
  }

  /** `realpath(base_dir . requested)`. */
  function Canonical(env: Env, path: string): Option<string>
  {
    env.canon(env.base + Requested(env, path))
  }

  /**
   * `sanitize_and_validate_path`: the canonical target relative to the
   * canonical base, or "" (the base itself) when the target does not resolve
   * or does not start with the canonical base as a string.
   */
  function SanitizeAndValidatePath(env: Env, path: string): (r: string)
    ensures Canonical(env, path).None? ==> r == ""
    ensures r != "" ==> Canonical(env, path).Some? && StartsWith(Canonical(env, path).value, BaseReal(env))
    ensures r == "" || r[0] != '/'
  {
    match Canonical(env, path)
    case None => ""
    case Some(full) =>
      if !StartsWith(full, BaseReal(env)) then ""
      else LTrim(RemoveAll(full, BaseReal(env)), {'/'})
  }

  /**
   * When the canonical target is the canonical base followed by a tail in
   * which the base does not occur again, the result is that tail without its
   * leading slashes.
   */
  lemma {:induction false} SanitizeContained(env: Env, path: string, tail: string)
    requires BaseReal(env) != ""
    requires Canonical(env, path) == Some(BaseReal(env) + tail)
    requires !Occurs(BaseReal(env), tail)
    ensures SanitizeAndValidatePath(env, path) == LTrim(tail, {'/'})
  {
    var b := BaseReal(env);
    var full := b + tail;
    assert StartsWith(full, b);
    assert full[..|b|] == b && full[|b|..] == tail;
    if |full| >= |b| {
      assert RemoveAll(full, b) == RemoveAll(tail, b);
    }
    RemoveAllAbsent(tail, b);
  }

  /** `realpath(base_dir . rel)`; a PHP-falsy result ("" or "0") counts as a failure (`!$full_path`). */
  function RealpathUnderBase(env: Env, rel: string): (r: Option<string>)
    ensures r.Some? ==> !PhpEmpty(r.value)
  {
    match env.canon(env.base + rel)
    case None => None
    case Some(full) => if PhpEmpty(full) then None else Some(full)
  }

  /**
   * `realpath(base_dir . sanitize_and_validate_path(rel))`, as every handler
   * computes it. A request that does not canonicalise is silently redirected
   * to the base directory itself: every handler, delete included, then acts
   * on the base.
   */
  function Resolve(env: Env, rel: string): (r: Option<string>)
    ensures r.Some? ==> !PhpEmpty(r.value)
    ensures Canonical(env, rel).None? ==> r == RealpathUnderBase(env, "")
  {
    RealpathUnderBase(env, SanitizeAndValidatePath(env, rel))
  }

  /** The segments of the resolved target, as `is_dir`/`is_file` look it up. */
  function TargetPath(env: Env, rel: string): Option<seq<string>>
  {
    match Resolve(env, rel)
    case None => None
    case Some(full) => Some(Parts(full))
  }

  /** `sanitize_and_validate_path` once the target has canonicalised to a path under the base. */
  lemma SanitizeOfPrefixed(env: Env, path: string, full: string)
    requires Canonical(env, path) == Some(full) && StartsWith(full, BaseReal(env))
    ensures SanitizeAndValidatePath(env, path) == LTrim(RemoveAll(full, BaseReal(env)), {'/'})
  {
  }

  /**
   * The environment of the sibling example: base "/srv/www/", no decoding;
   * `realpath` resolves the base and "/srv/www/../www-evil".
   */
  function SiblingEnv(): Env
  {
    Env("/srv/www/",
        s => if s == "/srv/www/" then Some("/srv/www")
             else if s == "/srv/www/" + "../www-evil" then Some("/srv/www-evil")
             else None,
        s => s)
  }

  lemma SiblingCanonical()
    ensures Canonical(SiblingEnv(), "../www-evil") == Some("/srv/www-evil")
    ensures BaseReal(SiblingEnv()) == "/srv/www"
  {
    var env := SiblingEnv();
    assert env.decode("../www-evil") == "../www-evil";
    assert Trim("../www-evil", {'/'}) == "../www-evil";
    assert Requested(env, "../www-evil") == "../www-evil";
    assert env.base == "/srv/www/";
    assert env.canon(env.base + "../www-evil") == Some("/srv/www-evil");
    assert env.canon(env.base) == Some("/srv/www");
  }

  lemma SiblingRemoveAll()
    ensures RemoveAll("/srv/www-evil", "/srv/www") == "-evil"
    ensures LTrim("-evil", {'/'}) == "-evil"
  {
    var full, base := "/srv/www-evil", "/srv/www";
    assert |base| == 8 && |"-evil"| == 5;
    assert RemoveAll("-evil", base) == "-evil";
    assert full[..8] == base;
    assert full[8..] == "-evil";
  }

  /**
   * The prefix test is not aware of segment boundaries: the sibling directory
   * "/srv/www-evil" passes it, and its relative form is "-evil".
   */
  lemma SiblingPassesPrefixTest()
    ensures Canonical(SiblingEnv(), "../www-evil") == Some("/srv/www-evil")
    ensures StartsWith("/srv/www-evil", BaseReal(SiblingEnv()))
    ensures SanitizeAndValidatePath(SiblingEnv(), "../www-evil") == "-evil"
  {
    SiblingCanonical();
    assert "/srv/www" <= "/srv/www-evil";
    SanitizeOfPrefixed(SiblingEnv(), "../www-evil", "/srv/www-evil");
    SiblingRemoveAll();
  }

  /**
   * The environment of the escape example: base "/b/", whose tree holds the
   * directories "/b/b." and "/b/b./b.", and whose parent is "/".
   */
  function EscapeEnv(): Env
  {
    Env("/b/",
        s => if s == "/b/" then Some("/b")
             else if s == "/b/b./b." then Some("/b/b./b.")
             else if s == "/b/.." then Some("/")
             else None,
        s => s)
  }

  lemma EscapeCanonical()
    ensures Canonical(EscapeEnv(), "b./b.") == Some("/b/b./b.")
    ensures BaseReal(EscapeEnv()) == "/b"
  {
    var env := EscapeEnv();
    assert env.decode("b./b.") == "b./b.";
    assert Trim("b./b.", {'/'}) == "b./b.";
    assert Requested(env, "b./b.") == "b./b.";
    assert env.base == "/b/";
    assert env.base + "b./b." == "/b/b./b.";
    assert env.canon("/b/b./b.") == Some("/b/b./b.");
    assert env.canon(env.base) == Some("/b");
  }

  /** `str_replace("/b", "", "/b/b./b.")` is "..": three occurrences go, two dots stay. */
  lemma EscapeRemoveAll()
    ensures RemoveAll("/b/b./b.", "/b") == ".."
    ensures LTrim("..", {'/'}) == ".."
  {
    var full := "/b/b./b.";
    assert full[..2] == "/b" && full[2..] == "/b./b.";
    assert "/b./b."[..2] == "/b" && "/b./b."[2..] == "./b.";
    assert "./b."[..2] != "/b" && "./b."[1..] == "/b.";
    assert "/b."[..2] == "/b" && "/b."[2..] == ".";
    assert RemoveAll(".", "/b") == ".";
    assert RemoveAll("/b.", "/b") == ".";
    assert RemoveAll("./b.", "/b") == [ '.' ] + ".";
  }

  /** `realpath("/b/" . "..")` in the escape example. */
  lemma EscapeParent()
    ensures RealpathUnderBase(EscapeEnv(), "..") == Some("/")
  {
    var env := EscapeEnv();
    assert env.base + ".." == "/b/..";
    assert env.canon("/b/..") == Some("/");
    assert !PhpEmpty("/");
  }

  /**
   * `str_replace` removes every occurrence of the base, not only the leading
   * one: the directory "/b/b./b." inside the base sanitises to "..", and the
   * handler's second `realpath` then lands on "/", outside the base.
   */
  lemma RepeatedBaseEscapes()
    ensures SanitizeAndValidatePath(EscapeEnv(), "b./b.") == ".."
    ensures Resolve(EscapeEnv(), "b./b.") == Some("/")
    ensures !StartsWith("/", BaseReal(EscapeEnv()))
  {
    EscapeCanonical();
    assert "/b" <= "/b/b./b.";
    SanitizeOfPrefixed(EscapeEnv(), "b./b.", "/b/b./b.");
    EscapeRemoveAll();
    EscapeParent();
  }
}
