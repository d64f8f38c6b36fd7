/**
 * Configuration loading (backend/internal/config/config.go): the environment
 * values are given as a record instead of being read from the process.
 */
module Config {
  import opened GoStrings

  /** The environment variables the server reads, as strings ("" when unset). */
  datatype Env = Env(
    databaseUrl: string,   // DATABASE_URL
    jwtSecret: string,     // JWT_SECRET
    thumbDir: string,      // THUMB_DIR
    indexOther: string,    // INDEX_OTHER
    extPhoto: string,      // MEDIA_EXT_PHOTO
    extAudio: string,      // MEDIA_EXT_AUDIO
    extVideo: string)      // MEDIA_EXT_VIDEO

  datatype Config = Config(
    databaseUrl: string,
    jwtSecret: string,
    thumbDir: string,
    indexOther: bool,
    extPhoto: set<string>,
    extAudio: set<string>,
    extVideo: set<string>)

  const DefaultThumbDir := "/data/thumbs"

  /** One comma-separated piece as it is stored: trimmed, then lower-cased. */
  function Normalize(p: string): string {
    ToLower(TrimSpace(p))
  }

  /** The set of extensions a comma-separated list denotes. */
  function CSVSet(v: string): set<string> {
    NonEmptyImages(Split(v, ','), Normalize)
  }

  /** The non-empty values `f` takes on the pieces `ps`. */
  function NonEmptyImages(ps: seq<string>, f: string -> string): set<string> {
    set p | p in ps && f(p) != "" :: f(p)
  }

  /** One more piece adds its value, unless that is empty. */
  lemma NonEmptyImagesSnoc(ps: seq<string>, q: string, f: string -> string)
    ensures NonEmptyImages(ps + [q], f) == NonEmptyImages(ps, f) + (if f(q) == "" then {} else {f(q)})
  {
    var l, r := NonEmptyImages(ps + [q], f), NonEmptyImages(ps, f) + (if f(q) == "" then {} else {f(q)});
    forall e | e in l ensures e in r {
      var p :| p in ps + [q] && f(p) != "" && f(p) == e;
      if p != q { assert p in ps; }
    }
    forall e | e in r ensures e in l {
      if e in NonEmptyImages(ps, f) {
        var p :| p in ps && f(p) != "" && f(p) == e;
        assert p in ps + [q];
      } else {
        assert q in ps + [q];
      }
    }
  }

  /** `parseCSVSet`: inserts each normalized, non-empty piece into the result. */
  method ParseCSVSet(v: string) returns (out: set<string>)
    ensures out == CSVSet(v)
  {
    out := {};
    var pieces := Split(v, ',');
    for i := 0 to |pieces|
      invariant out == NonEmptyImages(pieces[..i], Normalize)
    {
      assert pieces[..i + 1] == pieces[..i] + [pieces[i]];
      NonEmptyImagesSnoc(pieces[..i], pieces[i], Normalize);
      var p := Normalize(pieces[i]);
      out := out + (if p == "" then {} else {p});
    }
    assert pieces[..|pieces|] == pieces;
  }

  /** Trimming never brings in a comma. */
  lemma TrimKeepsNoComma(p: string)
    requires ',' !in p
    ensures ',' !in TrimSpace(p)
  {
    var l := TrimLeft(p, IsSpace);
    var t := TrimRight(l, IsSpace);
    forall k | 0 <= k < |t| ensures t[k] != ',' {
      assert t[k] == l[k];
      assert l[k] == p[|p| - |l| + k];
    }
  }

  /** Lower-casing never brings in a comma. */
  lemma LowerKeepsNoComma(t: string)
    requires ',' !in t
    ensures ',' !in ToLower(t)
  {
    var u := ToLower(t);
    forall k | 0 <= k < |u| ensures u[k] != ',' {
      assert u[k] == LowerChar(t[k]);
    }
  }

  /** A normalized piece holds no comma if the piece held none, and is trimmed and lower-case. */
  lemma NormalizeProperties(p: string)
    requires ',' !in p
    ensures ',' !in Normalize(p)
    ensures TrimSpace(Normalize(p)) == Normalize(p) && ToLower(Normalize(p)) == Normalize(p)
  {
    TrimKeepsNoComma(p);
    LowerKeepsNoComma(TrimSpace(p));
    ToLowerIdempotent(TrimSpace(p));
    LowerKeepsTrimmed(p);
  }

  /** Every element of a parsed set is non-empty, has no comma, and is trimmed and lower-case. */
  lemma CSVSetElements(v: string, e: string)
    requires e in CSVSet(v)
    ensures e != "" && ',' !in e
    ensures TrimSpace(e) == e && ToLower(e) == e
  {
    var p :| p in Split(v, ',') && Normalize(p) != "" && Normalize(p) == e;
    NormalizeProperties(p);
  }

  /** The empty variable gives the empty set. */
  lemma CSVSetEmpty()
    ensures CSVSet("") == {}
  {
    assert Split("", ',') == [""];
  }

  /** Joining two lists with a comma unites their sets. */
  lemma CSVSetConcat(a: string, b: string)
    ensures CSVSet(a + "," + b) == CSVSet(a) + CSVSet(b)
  {
    SplitConcat(a, ',', b);
  }

  /** `Load`: builds the configuration, defaulting the thumbnail directory. */
  function Load(env: Env): (cfg: Config)
    ensures cfg.thumbDir != ""
    ensures env.thumbDir != "" ==> cfg.thumbDir == env.thumbDir
    ensures env.thumbDir == "" ==> cfg.thumbDir == DefaultThumbDir
    ensures cfg.indexOther <==> Normalize(env.indexOther) == "true"
    ensures cfg.extPhoto == CSVSet(env.extPhoto)
    ensures cfg.extAudio == CSVSet(env.extAudio)
    ensures cfg.extVideo == CSVSet(env.extVideo)
    ensures cfg.databaseUrl == env.databaseUrl && cfg.jwtSecret == env.jwtSecret
  {
    var c := Config(env.databaseUrl, env.jwtSecret, env.thumbDir,
                    Normalize(env.indexOther) == "true",
                    CSVSet(env.extPhoto), CSVSet(env.extAudio), CSVSet(env.extVideo));
    if c.thumbDir == "" then c.(thumbDir := DefaultThumbDir) else c
  }

  /** INDEX_OTHER is read regardless of surrounding white space and of letter case. */
  lemma IndexOtherTolerant(env: Env, pre: string, word: string, post: string)
    requires forall k :: 0 <= k < |pre| ==> IsSpace(pre[k])
    requires forall k :: 0 <= k < |post| ==> IsSpace(post[k])
    requires ToLower(word) == "true"
    requires env.indexOther == pre + word + post
    ensures Load(env).indexOther
  {
    assert |word| == 4;
    assert word[0] != ' ' by { assert LowerChar(word[0]) == 't'; }
    assert word[0] in "tT" && word[3] in "eE" by {
      assert LowerChar(word[0]) == 't' && LowerChar(word[3]) == 'e';
    }
    TrimSpaceSurrounded(pre, word, post);
  }
}
