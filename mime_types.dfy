/**
 * Content-type labels for changed files (`get_mime_type`).
 *
 * A path is looked up in the process-wide MIME registry: the system's default
 * table with four entries registered on top of it, by the extension that
 * Python's `posixpath.splitext` finds. The MIME type found (or the empty
 * string) then goes through three rewrites, each anchored at the start of
 * the string and applied at most once.
 */
module MimeTypes {
  import opened Wrappers

  /** Extension (with its leading dot) to MIME type. */
  type Table = map<string, string>

  /** The four registrations made before every lookup. */
  const Overrides: Table :=
    map[".toml" := "text/x-toml",
        ".yml" := "text/x-yaml",
        ".yaml" := "text/x-yaml",
        ".gitignore" := "text/x-sh"]

  /** The registry after the overrides are registered: a registration replaces a default entry. */
  function Registry(system: Table): (t: Table)
    ensures t.Keys == system.Keys + Overrides.Keys
    ensures forall e :: e in Overrides ==> t[e] == Overrides[e]
    ensures forall e :: e in system && e !in Overrides ==> t[e] == system[e]
  {
    system + Overrides
  }

  /** The index of the last occurrence of `c` in `s`, or -1 (Python's `str.rfind`). */
  function LastIndexOf(s: string, c: char): (r: int)
    ensures -1 <= r < |s|
    ensures r >= 0 ==> s[r] == c
    ensures forall j :: r < j < |s| ==> s[j] != c
  {
    if |s| == 0 then -1
    else if s[|s| - 1] == c then |s| - 1
    else LastIndexOf(s[..|s| - 1], c)
  }

  /** Some character of `s[lo..hi]` is not a dot. */
  predicate HasNonDot(s: string, lo: int, hi: int)
    requires 0 <= lo <= hi <= |s|
  {
    exists i :: lo <= i < hi && s[i] != '.'
  }

  /**
   * The extension `posixpath.splitext` splits off: from the last dot of the
   * last path component, unless only dots precede it in that component
   * (a name such as `.gitignore` has no extension).
   */
  function Extension(path: string): (ext: string)
    ensures |ext| <= |path| && ext == path[|path| - |ext|..]
    ensures ext != [] ==> ext[0] == '.'
    ensures forall i :: 0 < i < |ext| ==> ext[i] != '.' && ext[i] != '/'
  {
    var sep := LastIndexOf(path, '/');
    var dot := LastIndexOf(path, '.');
    if dot > sep && HasNonDot(path, sep + 1, dot) then path[dot..] else ""
  }

  function LowerChar(c: char): char {
    if 'A' <= c <= 'Z' then (c as int - 'A' as int + 'a' as int) as char else c
  }

  /** ASCII lower-casing; a narrowing of Python's `str.lower`. */
  function Lower(s: string): (r: string)
    ensures |r| == |s|
    ensures forall i :: 0 <= i < |s| ==> r[i] == LowerChar(s[i])
  {
    seq(|s|, i requires 0 <= i < |s| => LowerChar(s[i]))
  }

  /** `mimetypes.guess_type(path)[0]`: the exact extension first, then its lower-case form. */
  function GuessType(table: Table, path: string): (t: Option<string>)
    ensures t.Some? ==> t.value in table.Values
    ensures Extension(path) in table ==> t == Some(table[Extension(path)])
    ensures Extension(path) !in table && Lower(Extension(path)) in table ==>
              t == Some(table[Lower(Extension(path))])
    ensures t.None? <==> Extension(path) !in table && Lower(Extension(path)) !in table
  {
    var ext := Extension(path);
    if ext in table then Some(table[ext])
    else if Lower(ext) in table then Some(table[Lower(ext)])
    else None
  }

  predicate IsLower(c: char) {
    'a' <= c <= 'z'
  }

  /** The length of the longest prefix of `s` made of letters `a`-`z`. */
  function LowerRun(s: string): (n: nat)
    ensures n <= |s|
    ensures forall i :: 0 <= i < n ==> IsLower(s[i])
    ensures n < |s| ==> !IsLower(s[n])
  {
    if |s| == 0 || !IsLower(s[0]) then 0 else 1 + LowerRun(s[1..])
  }

  /** `s` starts with `[a-z]+/` and `s[k]` is that slash. */
  predicate CategoryPrefix(s: string, k: int) {
    0 < k < |s| && s[k] == '/' && forall i :: 0 <= i < k ==> IsLower(s[i])
  }

  /** `re.sub("^[a-z]+/", "", s)`. */
  function StripCategory(s: string): (r: string)
    ensures |r| <= |s|
  {
    var k := LowerRun(s);
    if 0 < k < |s| && s[k] == '/' then s[k + 1..] else s
  }

  /** `re.sub("^x-", "", s)`. */
  function StripVendor(s: string): (r: string)
    ensures |r| <= |s|
    ensures r != s <==> |s| >= 2 && s[..2] == "x-"
  {
    if |s| >= 2 && s[..2] == "x-" then s[2..] else s
  }

  /** `re.sub("^plain", "text", s)`. */
  function PlainToText(s: string): (r: string)
    ensures |r| <= |s|
    ensures r != s <==> |s| >= 5 && s[..5] == "plain"
  {
    if |s| >= 5 && s[..5] == "plain" then "text" + s[5..] else s
  }

  /** The three rewrites, in order. */
  function Label(mimeType: string): (r: string)
    ensures |r| <= |mimeType|
  {
    PlainToText(StripVendor(StripCategory(mimeType)))
  }

  /** `get_mime_type(filepath)`: never null; the empty string when the lookup finds nothing. */
  function MimeType(system: Table, path: string): (r: string)
    ensures GuessType(Registry(system), path).None? ==> r == ""
    ensures GuessType(Registry(system), path).Some? ==> |r| <= |GuessType(Registry(system), path).value|
  {
    Label(GuessType(Registry(system), path).GetOr(""))
  }

  // ------------------------------------------------------------------
  // Properties
  // ------------------------------------------------------------------

  /**
   * `StripCategory` is the regular-expression substitution: when `s` has a
   * prefix matching `[a-z]+/` (there is at most one) exactly that prefix is
   * removed, and otherwise `s` is left as it is.
   */
  lemma {:induction false} StripCategoryMatchesPattern(s: string)
    ensures forall k :: CategoryPrefix(s, k) ==> StripCategory(s) == s[k + 1..]
    ensures (forall k :: !CategoryPrefix(s, k)) ==> StripCategory(s) == s
    ensures forall k, k' :: CategoryPrefix(s, k) && CategoryPrefix(s, k') ==> k == k'
  {
    var n := LowerRun(s);
    forall k | CategoryPrefix(s, k)
      ensures k == n
    {
    }
    if 0 < n < |s| && s[n] == '/' {
      assert CategoryPrefix(s, n);
    }
  }

  /** `^x-` removes exactly the two characters `x-` and keeps the rest. */
  lemma StripVendorResult(s: string)
    ensures StripVendor(s) != s ==> s == "x-" + StripVendor(s)
    ensures StripVendor("x-" + s) == s
  {
    assert ("x-" + s)[..2] == "x-";
    assert ("x-" + s)[2..] == s;
  }

  /** `^plain` becomes `text` and the rest is kept. */
  lemma PlainToTextResult(s: string)
    ensures PlainToText(s) != s ==>
              |PlainToText(s)| >= 4 && PlainToText(s)[..4] == "text" && s == "plain" + PlainToText(s)[4..]
    ensures PlainToText("plain" + s) == "text" + s
  {
    assert ("plain" + s)[..5] == "plain";
    assert ("plain" + s)[5..] == s;
    if PlainToText(s) != s {
      assert PlainToText(s) == "text" + s[5..];
      assert PlainToText(s)[4..] == s[5..];
      assert s == s[..5] + s[5..];
    }
  }

  /** A lower-case category followed by a slash is removed whatever follows. */
  lemma StripCategoryOf(category: string, subtype: string)
    requires |category| > 0 && forall i :: 0 <= i < |category| ==> IsLower(category[i])
    ensures StripCategory(category + "/" + subtype) == subtype
  {
    var s := category + "/" + subtype;
    StripCategoryMatchesPattern(s);
    assert CategoryPrefix(s, |category|);
    assert s[|category| + 1..] == subtype;
  }

  /** The rewrites on a `category/subtype` type act on the subtype alone. */
  lemma LabelOfType(category: string, subtype: string)
    requires |category| > 0 && forall i :: 0 <= i < |category| ==> IsLower(category[i])
    ensures Label(category + "/" + subtype) == PlainToText(StripVendor(subtype))
  {
    StripCategoryOf(category, subtype);
  }

  /** `text/plain` is labelled `text`. */
  lemma PlainTextLabel()
    ensures Label("text/plain") == "text"
  {
    LabelOfType("text", "plain");
    assert "text" + "/" + "plain" == "text/plain";
    assert StripVendor("plain") == "plain";
    assert PlainToText("plain") == "text";
  }

  /** `text/x-<name>` is labelled `<name>`. */
  lemma VendorTextLabel(name: string)
    requires !(|name| >= 5 && name[..5] == "plain")
    ensures Label("text/x-" + name) == name
  {
    LabelOfType("text", "x-" + name);
    assert "text" + "/" + ("x-" + name) == "text/x-" + name;
    assert ("x-" + name)[2..] == name;
    assert StripVendor("x-" + name) == name;
  }

  /** `ext` is a dot followed by characters other than dots and slashes. */
  predicate IsExtension(ext: string) {
    |ext| > 0 && ext[0] == '.' && forall i :: 0 < i < |ext| ==> ext[i] != '.' && ext[i] != '/'
  }

  /** The last path component of `stem` holds a character other than a dot. */
  predicate HasStem(stem: string) {
    HasNonDot(stem, LastIndexOf(stem, '/') + 1, |stem|)
  }

  /**
   * A path whose last component has a stem (so `v1.` and `v1..` qualify,
   * but not `..` or a directory) followed by an extension has that extension.
   */
  lemma {:induction false} ExtensionOf(stem: string, ext: string)
    requires HasStem(stem)
    requires IsExtension(ext)
    ensures Extension(stem + ext) == ext
  {
    var path := stem + ext;
    var sep := LastIndexOf(path, '/');
    var dot := LastIndexOf(path, '.');
    assert path[|stem|] == '.';
    forall j | |stem| < j < |path|
      ensures path[j] != '.' && path[j] != '/'
    {
      assert path[j] == ext[j - |stem|];
    }
    assert dot == |stem|;
    var stemSep := LastIndexOf(stem, '/');
    assert sep == stemSep by {
      if stemSep >= 0 {
        assert path[stemSep] == stem[stemSep];
      }
      if sep < |stem| && sep >= 0 {
        assert stem[sep] == path[sep];
      }
    }
    var i :| stemSep + 1 <= i < |stem| && stem[i] != '.';
    assert path[i] == stem[i];
    assert HasNonDot(path, sep + 1, dot);
    assert path[dot..] == ext;
  }

  /**
   * A last component made of one dot and a name has no extension (Python's
   * rule for dot files such as `.gitignore`).
   */
  lemma {:induction false} DotFileHasNoExtension(dir: string, dotName: string)
    requires dir == [] || dir[|dir| - 1] == '/'
    requires IsExtension(dotName)
    ensures Extension(dir + dotName) == ""
  {
    var path := dir + dotName;
    var sep := LastIndexOf(path, '/');
    var dot := LastIndexOf(path, '.');
    assert path[|dir|] == '.';
    forall j | |dir| < j < |path|
      ensures path[j] != '.' && path[j] != '/'
    {
      assert path[j] == dotName[j - |dir|];
    }
    assert dot == |dir|;
    if dir != [] {
      assert path[|dir| - 1] == '/';
    }
    assert sep == |dir| - 1;
    assert !HasNonDot(path, sep + 1, dot);
  }

  /**
   * A registered override decides the label of every path with a stem and
   * that extension, whatever the system table holds.
   */
  lemma OverrideDecides(system: Table, stem: string, ext: string)
    requires HasStem(stem)
    requires IsExtension(ext) && ext in Overrides
    ensures MimeType(system, stem + ext) == Label(Overrides[ext])
  {
    ExtensionOf(stem, ext);
  }

  /** The four registered keys are extensions. */
  lemma OverrideKeysAreExtensions()
    ensures IsExtension(".toml") && IsExtension(".yml") && IsExtension(".yaml") && IsExtension(".gitignore")
  {
  }

  lemma TomlTypeLabel()
    ensures Label(Overrides[".toml"]) == "toml"
  {
    VendorTextLabel("toml");
    assert "text/x-" + "toml" == "text/x-toml";
    assert Overrides[".toml"] == "text/x-toml";
  }

  lemma YmlTypeLabel()
    ensures Label(Overrides[".yml"]) == "yaml"
  {
    VendorTextLabel("yaml");
    assert "text/x-" + "yaml" == "text/x-yaml";
    assert Overrides[".yml"] == "text/x-yaml";
  }

  lemma YamlTypeLabel()
    ensures Label(Overrides[".yaml"]) == "yaml"
  {
    VendorTextLabel("yaml");
    assert "text/x-" + "yaml" == "text/x-yaml";
    assert Overrides[".yaml"] == "text/x-yaml";
  }

  lemma ShTypeLabel()
    ensures Label(Overrides[".gitignore"]) == "sh"
  {
    VendorTextLabel("sh");
    assert "text/x-" + "sh" == "text/x-sh";
    assert Overrides[".gitignore"] == "text/x-sh";
  }

  /** `.toml` files are labelled `toml`, whatever the system table holds. */
  lemma TomlLabel(system: Table, stem: string)
    requires HasStem(stem)
    ensures MimeType(system, stem + ".toml") == "toml"
  {
    TomlTypeLabel();
    OverrideKeysAreExtensions();
    OverrideDecides(system, stem, ".toml");
  }

  /** `.yml` files are labelled `yaml`, whatever the system table holds. */
  lemma YmlLabel(system: Table, stem: string)
    requires HasStem(stem)
    ensures MimeType(system, stem + ".yml") == "yaml"
  {
    YmlTypeLabel();
    OverrideKeysAreExtensions();
    OverrideDecides(system, stem, ".yml");
  }

  /** `.yaml` files are labelled `yaml`, whatever the system table holds. */
  lemma YamlLabel(system: Table, stem: string)
    requires HasStem(stem)
    ensures MimeType(system, stem + ".yaml") == "yaml"
  {
    YamlTypeLabel();
    OverrideKeysAreExtensions();
    OverrideDecides(system, stem, ".yaml");
  }

  /**
   * A name with a stem and the extension `.gitignore` (such as
   * `global.gitignore`) is labelled `sh`, whatever the system table holds.
   */
  lemma GitignoreSuffixLabel(system: Table, stem: string)
    requires HasStem(stem)
    ensures MimeType(system, stem + ".gitignore") == "sh"
  {
    ShTypeLabel();
    OverrideKeysAreExtensions();
    OverrideDecides(system, stem, ".gitignore");
  }

  /**
   * A path without an extension is looked up under the empty extension, so
   * a file named `.gitignore` gets the same label as `README` rather than
   * the `.gitignore` override; with a system table keyed by extensions
   * only (no empty key) that label is the empty string.
   */
  lemma NoExtensionLabels(system: Table, dir: string)
    requires dir == [] || dir[|dir| - 1] == '/'
    ensures MimeType(system, dir + ".gitignore") == MimeType(system, dir + "README")
    ensures "" !in system ==> MimeType(system, dir + ".gitignore") == ""
  {
    DotFileHasNoExtension(dir, ".gitignore");
    var readme := dir + "README";
    assert LastIndexOf(readme, '.') < |dir| by {
      forall j | |dir| <= j < |readme| ensures readme[j] != '.' {
        assert readme[j] == "README"[j - |dir|];
      }
      if dir != [] {
        assert readme[|dir| - 1] == '/';
        assert LastIndexOf(readme, '/') >= |dir| - 1;
      }
    }
    assert Extension(readme) == "" by {
      if dir != [] {
        assert readme[|dir| - 1] == '/';
      }
    }
    assert Lower("") == "";
  }
}
