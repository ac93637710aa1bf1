/**
 * Path normalisation of controllers/media-controller.js: the public path
 * returned to clients (`toPublicPath`) and the stored key `uploads/<name>`
 * that the controller derives from a raw upload path (written out inline
 * three times in the source).
 */
module Paths {
  import opened JsString

  /** The storage-root marker searched for inside a path. */
  const Marker := "/uploads/"
  /** The prefix of every stored key. */
  const Root := "uploads/"

  /** An uploaded file as the upload transport hands it over; "" stands for a missing field. */
  datatype UploadedFile = UploadedFile(originalname: string, path: string, filename: string)

  /** `/^https?:\/\//i.test(s)` */
  predicate IsHttpUrl(s: string) {
    (|s| >= 7 && ToLowerAscii(s[..7]) == "http://")
    || (|s| >= 8 && ToLowerAscii(s[..8]) == "https://")
  }

  /** Backslashes turned into slashes, then trimmed. */
  function Normalized(p: string): string {
    Trim(ReplaceBackslashes(p))
  }

  /** The relative form chosen by the branches of `toPublicPath`. */
  function Relative(n: string): string {
    var idx := IndexOf(n, Marker);
    if idx >= 0 then n[idx + 1..]
    else if StartsWith(n, Root) then n
    else if StartsWith(n, "./uploads/") then n[2..]
    else if !StartsWith(n, "/") then Root + n
    else n[1..]
  }

  /**
   * `toPublicPath`: a stored or raw path as the public path sent to clients.
   * The contract covers the empty path and the URL branch; every other path
   * gets a leading slash (`PublicPathLeadingSlash`), is cut at its first
   * `/uploads/` (`PublicPathFromMarker`), and a clean stored path is kept
   * (`PublicPathFixedPoint`, `PublicPathOfKey`).
   */
  function ToPublicPath(p: string): (r: string)
    ensures p == "" ==> r == ""
    ensures p != "" && IsHttpUrl(Normalized(p)) ==> r == Normalized(p)
  {
    if p == "" then p else PublicOfNormalized(Normalized(p))
  }

  /** The steps of `toPublicPath` after its input has been normalised. */
  function PublicOfNormalized(n: string): string {
    if IsHttpUrl(n) then n
    else
      var rel := Relative(n);
      if StartsWith(rel, "/") then rel else "/" + rel
  }

  /** Every non-empty path that is not an `http(s)` URL comes out with a leading slash. */
  lemma PublicPathLeadingSlash(p: string)
    requires p != "" && !IsHttpUrl(Normalized(p))
    ensures StartsWith(ToPublicPath(p), "/")
  {
    var rel := Relative(Normalized(p));
    if !StartsWith(rel, "/") {
      assert ("/" + rel)[..1] == "/";
    }
  }

  /** When `n` contains the marker, `/` followed by its relative form is the suffix from the first marker. */
  lemma MarkerSuffix(n: string)
    requires Includes(n, Marker)
    ensures !StartsWith(Relative(n), "/")
    ensures "/" + Relative(n) == n[IndexOf(n, Marker)..]
    ensures StartsWith(n[IndexOf(n, Marker)..], Marker)
  {
    var idx := IndexOf(n, Marker);
    assert n[idx..idx + |Marker|] == Marker;
    assert n[idx..][..|Marker|] == n[idx..idx + |Marker|];
    assert n[idx] == n[idx..idx + |Marker|][0];
    assert Relative(n)[0] == n[idx..idx + |Marker|][1];
    assert "/" + n[idx + 1..] == n[idx..];
  }

  /**
   * A path containing `/uploads/` comes out as its normalised suffix from
   * the first `/uploads/` on.
   */
  lemma PublicPathFromMarker(p: string)
    requires p != "" && !IsHttpUrl(Normalized(p)) && Includes(Normalized(p), Marker)
    ensures StartsWith(ToPublicPath(p), Marker)
    ensures ToPublicPath(p) == Normalized(p)[IndexOf(Normalized(p), Marker)..]
  {
    MarkerSuffix(Normalized(p));
  }

  /** The `./uploads/` branch of `toPublicPath` is dead: such a path already contains `/uploads/`. */
  lemma DotUploadsBranchUnreachable(n: string)
    requires StartsWith(n, "./uploads/")
    ensures Includes(n, Marker)
  {
    assert n[1..10] == n[..10][1..];
    assert OccursAt(n, Marker, 1);
  }

  /** A string without backslashes and without white space at its ends is already normalised. */
  lemma NormalizedUnchanged(s: string)
    requires '\\' !in s
    requires s == [] || (!IsWhiteSpace(s[0]) && !IsWhiteSpace(s[|s| - 1]))
    ensures Normalized(s) == s
  {
    assert ReplaceBackslashes(s) == s;
    TrimUnchanged(s);
  }

  /** A normalised path has no backslash and no white space at its ends. */
  lemma NormalizedShape(p: string)
    ensures var n := Normalized(p);
      '\\' !in n && (n == [] || (!IsWhiteSpace(n[0]) && !IsWhiteSpace(n[|n| - 1])))
  {
    TrimInside(ReplaceBackslashes(p));
  }

  /** Normalising twice changes nothing. */
  lemma NormalizedIdempotent(p: string)
    ensures Normalized(Normalized(p)) == Normalized(p)
  {
    NormalizedShape(p);
    NormalizedUnchanged(Normalized(p));
  }

  /** A suffix of a normalised path that starts with a non-blank character is normalised. */
  lemma NormalizedSuffix(n: string, i: nat)
    requires '\\' !in n && i < |n| && !IsWhiteSpace(n[i]) && !IsWhiteSpace(n[|n| - 1])
    ensures Normalized(n[i..]) == n[i..]
  {
    assert n[i..][0] == n[i];
    assert n[i..][|n[i..]| - 1] == n[|n| - 1];
    NormalizedUnchanged(n[i..]);
  }

  /** On a normalised non-empty path `toPublicPath` is its second half alone. */
  lemma PublicPathOfNormalized(s: string)
    requires s != "" && Normalized(s) == s
    ensures ToPublicPath(s) == PublicOfNormalized(s)
  {
  }

  /** A path starting with `/uploads/` is a fixed point of the steps after normalisation. */
  lemma MarkerPathFixed(s: string)
    requires StartsWith(s, Marker)
    ensures PublicOfNormalized(s) == s
  {
    assert s[0] == s[..|Marker|][0];
    NotHttpUrl(s);
    assert OccursAt(s, Marker, 0);
    assert s[1..][0] == s[..|Marker|][1];
    assert "/" + s[1..] == s;
  }

  /** A path starting with one slash and without `/uploads/` is a fixed point of the steps after normalisation. */
  lemma SlashPathFixed(s: string)
    requires StartsWith(s, "/") && !StartsWith(s, "//") && !Includes(s, Marker)
    ensures PublicOfNormalized(s) == s
  {
    assert s[0] == s[..1][0] == '/';
    NotHttpUrl(s);
    assert !StartsWith(s, Root) by { assert |s| >= |Root| ==> s[..|Root|][0] == s[0]; }
    assert !StartsWith(s, "./uploads/") by { assert |s| >= 10 ==> s[..10][0] == s[0]; }
    assert !StartsWith(s[1..], "/") by {
      if |s| >= 2 { assert s[1..][..1] == s[..2][1..]; }
    }
    assert "/" + s[1..] == s;
  }

  /** `/uploads/<name>` is a fixed point of `toPublicPath`. */
  lemma PublicPathFixedPoint(name: string)
    requires '\\' !in name
    requires name == [] || !IsWhiteSpace(name[|name| - 1])
    ensures ToPublicPath(Marker + name) == Marker + name
  {
    var s := Marker + name;
    assert s[..|Marker|] == Marker;
    assert s[0] == '/' && s[|s| - 1] == if name == [] then '/' else name[|name| - 1];
    NormalizedUnchanged(s);
    MarkerPathFixed(s);
    PublicPathOfNormalized(s);
  }

  /**
   * A key as the upload transport produces it: `uploads/` followed by a file
   * name without separators, ending in a character `trim` keeps.
   */
  predicate PlainKey(k: string) {
    StartsWith(k, Root) && '\\' !in k && '/' !in k[|Root|..] && !IsWhiteSpace(k[|k| - 1])
  }

  /** `uploads/<name>` has no `/uploads/` in it when the name has no slash. */
  lemma NoMarkerInKey(k: string)
    requires StartsWith(k, Root) && '/' !in k[|Root|..]
    ensures !Includes(k, Marker)
  {
    forall j | 0 <= j ensures !OccursAt(k, Marker, j) {
      NoMarkerAt(k, j);
    }
  }

  lemma NoMarkerAt(k: string, j: nat)
    requires StartsWith(k, Root) && '/' !in k[|Root|..]
    ensures !OccursAt(k, Marker, j)
  {
    if j + |Marker| <= |k| {
      assert k[j..j + |Marker|][8] == k[j + 8] == k[|Root|..][j] != '/';
    }
  }

  /** A path whose first character does not lower-case to `h` is no URL. */
  lemma NotHttpUrl(s: string)
    requires s != [] && LowerChar(s[0]) != 'h'
    ensures !IsHttpUrl(s)
  {
    if |s| >= 7 { assert ToLowerAscii(s[..7])[0] == LowerChar(s[0]); }
    if |s| >= 8 { assert ToLowerAscii(s[..8])[0] == LowerChar(s[0]); }
  }

  /** A plain key `uploads/<name>` is sent out as `/uploads/<name>`. */
  lemma PublicPathOfKey(k: string)
    requires PlainKey(k)
    ensures ToPublicPath(k) == "/" + k
  {
    assert k[0] == k[..|Root|][0] == 'u';
    NormalizedUnchanged(k);
    NoMarkerInKey(k);
    RootPathPublic(k);
    PublicPathOfNormalized(k);
  }

  lemma RootPathPublic(k: string)
    requires StartsWith(k, Root) && !Includes(k, Marker)
    ensures PublicOfNormalized(k) == "/" + k
  {
    assert k[0] == k[..|Root|][0] == 'u';
    NotHttpUrl(k);
  }

  /** An occurrence of the marker in a suffix is one in the whole string. */
  lemma NoMarkerInSuffix(s: string, k: nat)
    requires k <= |s| && !Includes(s, Marker)
    ensures !Includes(s[k..], Marker)
  {
    forall j | OccursAt(s[k..], Marker, j) ensures false {
      OccursInSuffix(s, k, Marker, j);
    }
  }

  /** A path starting with `uploads/` is not taken for a URL, even after normalisation. */
  lemma KeyNotUrl(k: string)
    requires StartsWith(k, Root)
    ensures Normalized(k) != "" && !IsHttpUrl(Normalized(k))
  {
    assert k[0] == k[..|Root|][0] && k[7] == k[..|Root|][7];
    var b := ReplaceBackslashes(k);
    assert TrimStart(b) == b;
    TrimEndKeeps(b, 7);
    var n := Normalized(k);
    assert n[0] == b[0];
    NotHttpUrl(n);
  }

  /** No backslash and no white space at either end: what normalisation leaves. */
  predicate Clean(n: string) {
    '\\' !in n && (n == [] || (!IsWhiteSpace(n[0]) && !IsWhiteSpace(n[|n| - 1])))
  }

  /**
   * `toPublicPath` is idempotent except where its result starts with `//`:
   * applying it to its own result gives the same result.
   */
  lemma {:induction false} PublicPathIdempotent(p: string)
    requires !StartsWith(ToPublicPath(p), "//")
    ensures ToPublicPath(ToPublicPath(p)) == ToPublicPath(p)
  {
    if p == "" { return; }
    var n := Normalized(p);
    NormalizedShape(p);
    NormalizedIdempotent(p);
    var r := ToPublicPath(p);
    if IsHttpUrl(n) {
      assert r == n;
      PublicPathOfNormalized(n);
    } else {
      assert r == PublicOfNormalized(n);
      FixedAfterNormalizing(n);
      PublicPathOfNormalized(r);
    }
  }

  /** The steps after normalisation, applied to a clean non-URL path, give a clean fixed point. */
  lemma FixedAfterNormalizing(n: string)
    requires Clean(n) && !IsHttpUrl(n) && !StartsWith(PublicOfNormalized(n), "//")
    ensures var r := PublicOfNormalized(n); r != "" && Normalized(r) == r && PublicOfNormalized(r) == r
  {
    if Includes(n, Marker) {
      FixedFromMarker(n);
    } else if StartsWith(n, Root) {
      FixedFromRoot(n);
    } else if StartsWith(n, "./uploads/") {
      DotUploadsBranchUnreachable(n);
    } else if !StartsWith(n, "/") {
      FixedFromName(n);
    } else {
      FixedFromSlash(n);
    }
  }

  lemma FixedFromMarker(n: string)
    requires Clean(n) && !IsHttpUrl(n) && Includes(n, Marker)
    ensures var r := PublicOfNormalized(n); r != "" && Normalized(r) == r && PublicOfNormalized(r) == r
  {
    var idx := IndexOf(n, Marker);
    MarkerSuffix(n);
    var r := n[idx..];
    assert n[idx] == r[..|Marker|][0];
    NormalizedSuffix(n, idx);
    MarkerPathFixed(r);
  }

  lemma FixedFromRoot(n: string)
    requires Clean(n) && !Includes(n, Marker) && StartsWith(n, Root)
    ensures var r := PublicOfNormalized(n); r != "" && Normalized(r) == r && PublicOfNormalized(r) == r
  {
    var name := n[|Root|..];
    assert n == Root + name;
    assert '\\' !in name by { assert forall i :: 0 <= i < |name| ==> name[i] == n[|Root| + i]; }
    assert name != [] ==> name[|name| - 1] == n[|n| - 1];
    RootNameFixed(name);
  }

  /** `uploads/<name>` for a clean name is sent out as `/uploads/<name>`, which is clean and its own public path. */
  lemma RootNameFixed(name: string)
    requires '\\' !in name && (name == [] || !IsWhiteSpace(name[|name| - 1]))
    requires !Includes(Root + name, Marker)
    ensures var r := PublicOfNormalized(Root + name);
      r == Marker + name && Normalized(r) == r && PublicOfNormalized(r) == r
  {
    var n := Root + name;
    assert n[..|Root|] == Root;
    RootPathPublic(n);
    assert "/" + n == Marker + name;
    MarkerNameFixed(name);
  }

  lemma FixedFromName(n: string)
    requires Clean(n) && !IsHttpUrl(n) && !Includes(n, Marker)
    requires !StartsWith(n, Root) && !StartsWith(n, "./uploads/") && !StartsWith(n, "/")
    ensures var r := PublicOfNormalized(n); r != "" && Normalized(r) == r && PublicOfNormalized(r) == r
  {
    PublicOfName(n);
    MarkerNameFixed(n);
  }

  /** A bare name is sent out under `/uploads/`. */
  lemma PublicOfName(n: string)
    requires !IsHttpUrl(n) && !Includes(n, Marker)
    requires !StartsWith(n, Root) && !StartsWith(n, "./uploads/") && !StartsWith(n, "/")
    ensures PublicOfNormalized(n) == Marker + n
  {
    RelativeOfName(n);
    var s := Root + n;
    assert !StartsWith(s, "/") by { assert s[..1][0] == s[0] == 'u'; }
    PublicOfRelative(n);
    assert "/" + s == Marker + n;
  }

  /** A non-URL whose relative form has no leading slash is sent out as that form behind one slash. */
  lemma PublicOfRelative(n: string)
    requires !IsHttpUrl(n) && !StartsWith(Relative(n), "/")
    ensures PublicOfNormalized(n) == "/" + Relative(n)
  {
  }

  lemma RelativeOfName(n: string)
    requires !Includes(n, Marker)
    requires !StartsWith(n, Root) && !StartsWith(n, "./uploads/") && !StartsWith(n, "/")
    ensures Relative(n) == Root + n
  {
  }

  /** `/uploads/` followed by a clean name is clean and is its own public path. */
  lemma MarkerNameFixed(n: string)
    requires '\\' !in n && (n == [] || !IsWhiteSpace(n[|n| - 1]))
    ensures Normalized(Marker + n) == Marker + n && PublicOfNormalized(Marker + n) == Marker + n
  {
    var r := Marker + n;
    assert r[..|Marker|] == Marker;
    assert r[|r| - 1] == if n == [] then '/' else n[|n| - 1];
    NormalizedUnchanged(r);
    MarkerPathFixed(r);
  }

  lemma FixedFromSlash(n: string)
    requires Clean(n) && !IsHttpUrl(n) && !Includes(n, Marker)
    requires !StartsWith(n, Root) && !StartsWith(n, "./uploads/") && StartsWith(n, "/")
    requires !StartsWith(PublicOfNormalized(n), "//")
    ensures var r := PublicOfNormalized(n); r != "" && Normalized(r) == r && PublicOfNormalized(r) == r
  {
    assert Relative(n) == n[1..];
    if StartsWith(n[1..], "/") {
      var r := n[1..];
      assert n[1] == r[..1][0];
      NormalizedSuffix(n, 1);
      NoMarkerInSuffix(n, 1);
      SlashPathFixed(r);
    } else {
      assert n[0] == n[..1][0];
      assert "/" + n[1..] == n;
      assert !StartsWith(n, "//") by {
        if |n| >= 2 { assert n[1..][..1] == n[..2][1..]; }
      }
      NormalizedUnchanged(n);
      SlashPathFixed(n);
    }
  }

  /** `///a` is sent out as `//a`, which `toPublicPath` then maps to `/a`. */
  lemma PublicPathDoubleSlash()
    ensures ToPublicPath("///a") == "//a"
    ensures ToPublicPath("//a") == "/a"
  {
    ShortNoMarker("///a");
    SlashPathOnce("///a");
    ShortNoMarker("//a");
    SlashPathOnce("//a");
  }

  /** A clean path that starts with `//` and contains no `/uploads/` loses its first character. */
  lemma SlashPathOnce(p: string)
    requires |p| >= 2 && p[0] == '/' && p[1] == '/' && !Includes(p, Marker)
    requires '\\' !in p && !IsWhiteSpace(p[|p| - 1])
    ensures ToPublicPath(p) == p[1..]
  {
    NormalizedUnchanged(p);
    DoubleSlashPublic(p);
  }

  /** After normalisation, a path starting with `//` and without `/uploads/` loses its first slash. */
  lemma DoubleSlashPublic(p: string)
    requires |p| >= 2 && p[0] == '/' && p[1] == '/' && !Includes(p, Marker)
    ensures PublicOfNormalized(p) == p[1..]
  {
    NotHttpUrl(p);
    assert StartsWith(p, "/") by { assert p[..1][0] == p[0]; }
    RelativeOfSlash(p);
    assert p[1..][..1] == p[..2][1..];
  }

  /** A path starting with `/` and without `/uploads/` has the relative form without its first slash. */
  lemma RelativeOfSlash(n: string)
    requires StartsWith(n, "/") && !Includes(n, Marker)
    ensures Relative(n) == n[1..]
  {
    assert n[0] == n[..1][0];
    assert !StartsWith(n, Root) by { assert |n| >= |Root| ==> n[..|Root|][0] == n[0]; }
    assert !StartsWith(n, "./uploads/") by { assert |n| >= 10 ==> n[..10][0] == n[0]; }
  }

  /** A string shorter than `/uploads/` cannot contain it. */
  lemma ShortNoMarker(s: string)
    requires |s| < |Marker|
    ensures !Includes(s, Marker)
  {
  }

  /** `file.filename || file.originalname` */
  function FallbackName(f: UploadedFile): string {
    if f.filename != "" then f.filename else f.originalname
  }

  /** `(file.path || "").replace(/\\/g, "/")` */
  function RawPath(f: UploadedFile): string {
    ReplaceBackslashes(f.path)
  }

  /**
   * The stored key for a slash-normalised raw path: the path from its first
   * `/uploads/` (without that slash), else from its first `uploads/`, else
   * `uploads/` followed by `name`.
   */
  function KeyFromRaw(raw: string, name: string): (k: string)
    ensures StartsWith(k, Root) && k[0] != '/'
    ensures Includes(raw, Root) ==> EndsWith(raw, k)
    ensures !Includes(raw, Root) ==> k == Root + name
  {
    var i := IndexOf(raw, Marker);
    if i >= 0 then
      RootAfterMarker(raw, i);
      raw[i + 1..]
    else if Includes(raw, Root) then
      var j := IndexOf(raw, Root);
      RootAt(raw, j);
      raw[j..]
    else Root + name
  }

  /** After an occurrence of `/uploads/` comes an occurrence of `uploads/`. */
  lemma RootAfterMarker(raw: string, i: int)
    requires OccursAt(raw, Marker, i)
    ensures OccursAt(raw, Root, i + 1) && StartsWith(raw[i + 1..], Root) && Includes(raw, Root)
  {
    assert raw[i + 1..][..|Root|] == raw[i..i + |Marker|][1..];
    assert raw[i + 1..i + 1 + |Root|] == raw[i..i + |Marker|][1..];
    assert OccursAt(raw, Root, i + 1);
  }

  /** The suffix from an occurrence of `uploads/` starts with it. */
  lemma RootAt(raw: string, j: int)
    requires OccursAt(raw, Root, j)
    ensures StartsWith(raw[j..], Root)
  {
    assert raw[j..][..|Root|] == raw[j..j + |Root|];
  }

  /** The stored key of an uploaded file. */
  function StoredKey(f: UploadedFile): string {
    KeyFromRaw(RawPath(f), FallbackName(f))
  }

  /** A plain key handed back as a raw path is stored as itself. */
  lemma StoredKeyFixedPoint(k: string, originalname: string, filename: string)
    requires PlainKey(k)
    ensures StoredKey(UploadedFile(originalname, k, filename)) == k
  {
    assert ReplaceBackslashes(k) == k;
    NoMarkerInKey(k);
    assert OccursAt(k, Root, 0);
  }

  /** The inline copy of `updateMedia` for the new PDF (nested conditional expression). */
  function PdfKeyInline(f: UploadedFile): (k: string)
    ensures k == StoredKey(f)
  {
    var raw := RawPath(f);
    var uploadsIndex := IndexOf(raw, Marker);
    if uploadsIndex >= 0 then raw[uploadsIndex + 1..]
    else (if Includes(raw, Root) then raw[IndexOf(raw, Root)..] else Root + FallbackName(f))
  }

  /** The inline copy of `updateMedia` for every other uploaded file (early returns). */
  function PageKeyInline(f: UploadedFile): (k: string)
    ensures k == StoredKey(f)
  {
    var raw := RawPath(f);
    if IndexOf(raw, Marker) >= 0 then raw[IndexOf(raw, Marker) + 1..]
    else if Includes(raw, Root) then raw[IndexOf(raw, Root)..]
    else Root + FallbackName(f)
  }

  /** The inline copy of `imageUploader`, assigning `rel` branch by branch. */
  method CreateKey(file: UploadedFile) returns (rel: string)
    ensures rel == StoredKey(file)
  {
    var raw := ReplaceBackslashes(file.path);
    var uploadsIndex := IndexOf(raw, Marker);
    if uploadsIndex >= 0 {
      rel := raw[uploadsIndex + 1..];
    } else if Includes(raw, Root) {
      var i := IndexOf(raw, Root);
      rel := raw[i..];
    } else {
      rel := Root + FallbackName(file);
    }
  }
}
