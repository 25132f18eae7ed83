/**
 * The stand-alone logic of lib/supabase.ts: the UNSW e-mail allow-list check
 * (`isUNSWEmail`) and the path, content-type and URL derivations of
 * `uploadImage`, with the session lookup and the upload request reduced to
 * their outcomes.
 *
 * The development flag (`__DEV__`), the clock (`Date.now()`), the storage base
 * URL (`EXPO_PUBLIC_SUPABASE_URL`) and the outcomes of the two awaited calls are
 * parameters, so every function here is deterministic.
 */
module Supabase {
  import opened JsString

  /** JavaScript's `undefined` next to a defined value. */
  datatype Option<T> = None | Some(value: T)

  // ===========================================================================
  // isUNSWEmail
  // ===========================================================================

  /** The accepted domains, compared exactly (no suffix match). */
  const UnswDomains: seq<string> := ["unsw.edu.au", "student.unsw.edu.au", "ad.unsw.edu.au"]

  /**
   * `email.split('@')[1]?.toLowerCase()`: the lower-cased text between the
   * first and the second '@', or None (undefined) when there is no '@'.
   */
  function EmailDomain(email: string): (d: Option<string>)
    ensures d.Some? <==> '@' in email
  {
    SplitCount(email, '@');
    var parts := Split(email, '@');
    if |parts| > 1 then Some(Lower(parts[1])) else None
  }

  /**
   * `isUNSWEmail(email)` with `__DEV__` as the parameter dev. In development
   * every string passes; otherwise an address without '@' never does.
   */
  function IsUnswEmail(dev: bool, email: string): (r: bool)
    ensures dev ==> r
    ensures !dev && '@' !in email ==> !r
  {
    if dev then true
    else
      var domain := EmailDomain(email);
      domain.Some? && domain.value in UnswDomains
  }

  /** A string that holds '@' is a local part, a domain and an '@'-led (or empty) rest. */
  predicate IsAddressSplit(email: string, local: string, domain: string, rest: string) {
    email == local + "@" + domain + rest
    && '@' !in local && '@' !in domain
    && (rest == [] || rest[0] == '@')
  }

  /** Every string that holds an '@' splits that way. */
  lemma AddressSplitExists(email: string) returns (local: string, domain: string, rest: string)
    requires '@' in email
    ensures IsAddressSplit(email, local, domain, rest)
  {
    var parts := Split(email, '@');
    SplitCount(email, '@');
    SplitPiecesSepFree(email, '@');
    JoinSplit(email, '@');
    local, domain := parts[0], parts[1];
    rest := if |parts| == 2 then "" else "@" + Join(parts[2..], '@');
    var after := Join(parts[1..], '@');
    assert email == local + "@" + after;
    assert parts[1..][1..] == parts[2..];
    assert after == domain + rest;
  }

  /** The domain seen by the check is exactly the text between the first and the second '@'. */
  lemma DomainIsSecondSegment(local: string, domain: string, rest: string)
    requires '@' !in local && '@' !in domain && (rest == [] || rest[0] == '@')
    ensures EmailDomain(local + "@" + domain + rest) == Some(Lower(domain))
  {
    var email := local + "@" + domain + rest;
    assert email == local + ['@'] + (domain + rest);
    SplitFirst(local, '@', domain + rest);
    var tail := Split(domain + rest, '@');
    assert Split(email, '@')[1..] == tail;
    if rest == [] {
      assert domain + rest == domain;
      SplitNoSep(domain, '@');
    } else {
      assert domain + rest == domain + ['@'] + rest[1..];
      SplitFirst(domain, '@', rest[1..]);
    }
    assert tail[0] == domain;
    assert Split(email, '@')[1] == domain;
  }

  /**
   * Outside development, an address is accepted iff its lower-cased second
   * '@'-segment is one of the three domains; the local part and everything
   * from the second '@' on are ignored.
   */
  lemma NonDevAcceptance(local: string, domain: string, rest: string)
    requires '@' !in local && '@' !in domain && (rest == [] || rest[0] == '@')
    ensures IsUnswEmail(false, local + "@" + domain + rest) <==> Lower(domain) in UnswDomains
  {
    DomainIsSecondSegment(local, domain, rest);
  }

  /** A string without an upper-case letter is its own lower-case form. */
  lemma LowerOfLowerCase(s: string)
    requires forall i :: 0 <= i < |s| ==> !IsUpper(s[i])
    ensures Lower(s) == s
  {
  }

  /** The two longer domains are sub-domains of the first. */
  lemma DomainSpelling()
    ensures UnswDomains[1] == "student" + ".unsw.edu.au"
    ensures UnswDomains[2] == "ad" + ".unsw.edu.au"
    ensures Lower(".unsw.edu.au") == ".unsw.edu.au"
  {
    LowerOfLowerCase(".unsw.edu.au");
  }

  /** Lower-cased, a sub-domain of unsw.edu.au is on the list only as student. or ad. */
  lemma SubdomainListed(sub: string)
    ensures Lower(sub + ".unsw.edu.au") in UnswDomains <==> Lower(sub) == "student" || Lower(sub) == "ad"
  {
    var tld := ".unsw.edu.au";
    DomainSpelling();
    LowerConcat(sub, tld);
    var low := Lower(sub) + tld;
    if low == UnswDomains[1] {
      assert Lower(sub) == low[..7];
    } else if low == UnswDomains[2] {
      assert Lower(sub) == low[..2];
    }
  }

  /** Acceptance is exact: a sub-domain other than student. and ad. is rejected. */
  lemma SubdomainRejected(local: string, sub: string, rest: string)
    requires '@' !in local && '@' !in sub && (rest == [] || rest[0] == '@')
    requires Lower(sub) != "student" && Lower(sub) != "ad"
    ensures !IsUnswEmail(false, local + "@" + sub + ".unsw.edu.au" + rest)
  {
    var domain := sub + ".unsw.edu.au";
    assert local + "@" + sub + ".unsw.edu.au" + rest == local + "@" + domain + rest;
    NonDevAcceptance(local, domain, rest);
    SubdomainListed(sub);
  }

  /** Lower-cased, an accepted domain followed by more text is no longer on the list. */
  lemma ExtendedDomainUnlisted(suffix: string)
    requires suffix != []
    ensures Lower("unsw.edu.au" + suffix) !in UnswDomains
  {
    var low := Lower("unsw.edu.au" + suffix);
    assert low[0] == 'u';
    assert |low| > 11;
  }

  /** Acceptance is exact: an accepted domain followed by more text is rejected. */
  lemma ExtendedDomainRejected(local: string, suffix: string, rest: string)
    requires '@' !in local && '@' !in suffix && suffix != [] && (rest == [] || rest[0] == '@')
    ensures !IsUnswEmail(false, local + "@" + "unsw.edu.au" + suffix + rest)
  {
    var domain := "unsw.edu.au" + suffix;
    assert local + "@" + "unsw.edu.au" + suffix + rest == local + "@" + domain + rest;
    NonDevAcceptance(local, domain, rest);
    ExtendedDomainUnlisted(suffix);
  }

  /** Case does not matter anywhere in the address. */
  lemma CaseInsensitive(dev: bool, email: string)
    ensures IsUnswEmail(dev, Lower(email)) == IsUnswEmail(dev, email)
  {
    LowerKeepsNonLetter(email, '@');
    if !dev && '@' in email {
      var local, domain, rest := AddressSplitExists(email);
      LowerConcat(local + "@" + domain, rest);
      LowerConcat(local + "@", domain);
      LowerConcat(local, "@");
      assert Lower("@") == "@";
      LowerKeepsNonLetter(local, '@');
      LowerKeepsNonLetter(domain, '@');
      assert rest != [] ==> Lower(rest)[0] == '@';
      NonDevAcceptance(local, domain, rest);
      NonDevAcceptance(Lower(local), Lower(domain), Lower(rest));
      LowerIdempotent(domain);
    }
  }

  /** Each listed domain, spelt in lower case, passes whatever the local part. */
  lemma ListedDomainsAccepted(local: string)
    requires '@' !in local
    ensures forall d :: d in UnswDomains ==> IsUnswEmail(false, local + "@" + d)
  {
    forall d | d in UnswDomains
      ensures IsUnswEmail(false, local + "@" + d)
    {
      assert local + "@" + d == local + "@" + d + "";
      NonDevAcceptance(local, d, "");
      LowerOfLowerCase(d);
    }
  }

  /** Upper-case letters in the domain do not matter. */
  lemma MixedCaseAccepted(local: string)
    requires '@' !in local
    ensures IsUnswEmail(false, local + "@Student.UNSW.edu.au")
  {
    var domain := "Student.UNSW.edu.au";
    assert Lower(domain) == UnswDomains[1];
    assert local + "@Student.UNSW.edu.au" == local + "@" + domain + "";
    NonDevAcceptance(local, domain, "");
  }

  /** Only the segment before a second '@' is examined, so what follows it is ignored. */
  lemma SecondAtIgnored(local: string, tail: string)
    requires '@' !in local
    ensures IsUnswEmail(false, local + "@unsw.edu.au@" + tail)
  {
    var domain := UnswDomains[0];
    assert local + "@unsw.edu.au@" + tail == local + "@" + domain + ("@" + tail);
    NonDevAcceptance(local, domain, "@" + tail);
    LowerOfLowerCase(domain);
  }

  /** A faculty sub-domain is not on the list. */
  lemma FacultySubdomainRejected()
    ensures !IsUnswEmail(false, "x@cse.unsw.edu.au")
  {
    assert "x@cse.unsw.edu.au" == "x" + "@" + "cse" + ".unsw.edu.au" + "";
    LowerOfLowerCase("cse");
    SubdomainRejected("x", "cse", "");
  }

  /** A look-alike domain that merely starts with unsw.edu.au is rejected. */
  lemma LookAlikeRejected()
    ensures !IsUnswEmail(false, "x@unsw.edu.au.evil.com")
  {
    assert "x@unsw.edu.au.evil.com" == "x" + "@" + "unsw.edu.au" + ".evil.com" + "";
    ExtendedDomainRejected("x", ".evil.com", "");
  }

  // ===========================================================================
  // uploadImage
  // ===========================================================================

  /** Path prefix of the upload endpoint of the post-images bucket. */
  const UploadPrefix: string := "/storage/v1/object/post-images/"

  /** Path prefix of the public URL of an object in the post-images bucket. */
  const PublicPrefix: string := "/storage/v1/object/public/post-images/"

  /**
   * `uri.split('.').pop()?.toLowerCase() || 'jpg'`: the lower-cased text after
   * the last '.', or 'jpg' when that text is empty. `split` never returns an
   * empty array, so `pop()` is never undefined.
   */
  function FileExt(uri: string): (ext: string)
    ensures ext != []
    ensures '.' !in ext
    ensures forall i :: 0 <= i < |ext| ==> !IsUpper(ext[i])
  {
    var parts := Split(uri, '.');
    SplitPiecesSepFree(uri, '.');
    var last := Last(parts);
    LowerKeepsNonLetter(last, '.');
    var lowered := Lower(last);
    if lowered == "" then DefaultExtPlain(); "jpg" else lowered
  }

  /** The fallback extension is a plain lower-case word. */
  lemma DefaultExtPlain()
    ensures '.' !in "jpg"
    ensures forall i :: 0 <= i < |"jpg"| ==> !IsUpper("jpg"[i])
  {
    var j := "jpg";
    assert j[0] == 'j' && j[1] == 'p' && j[2] == 'g';
  }

  /** The extension is what follows the last '.', lower-cased, defaulting to jpg. */
  lemma ExtAfterLastDot(front: string, after: string)
    requires '.' !in after
    ensures FileExt(front + "." + after) == if after == [] then "jpg" else Lower(after)
  {
    SplitLast(front, '.', after);
  }

  /** A URI without any '.' is taken whole, lower-cased, as its own extension. */
  lemma ExtWithoutDot(uri: string)
    requires '.' !in uri
    ensures FileExt(uri) == if uri == [] then "jpg" else Lower(uri)
  {
    SplitNoSep(uri, '.');
  }

  /**
   * The extension is taken after the last '.', not after the last '/': when a
   * '/' follows the last '.', as in `content://media.provider/images/123`, the
   * extension holds that '/', and so does the content type.
   */
  lemma ExtMayHoldSlash(front: string, after: string)
    requires '.' !in after && '/' in after
    ensures '/' in FileExt(front + "." + after)
    ensures '/' in ContentType(FileExt(front + "." + after))[6..]
  {
    ExtAfterLastDot(front, after);
    LowerKeepsNonLetter(after, '/');
    var ext := FileExt(front + "." + after);
    assert ext != "jpg";
    assert ContentType(ext)[6..] == ext;
  }

  /**
   * `${userId}/${Date.now()}.${fileExt}`: the object's key inside the bucket,
   * filed in the user's folder and ending in the extension.
   */
  function ObjectPath(userId: string, now: nat, ext: string): (p: string)
    ensures |p| > |userId| + |ext| + 2
    ensures p[..|userId| + 1] == userId + "/"
    ensures p[|p| - |ext| - 1..] == "." + ext
  {
    var p := userId + "/" + Decimal(now) + "." + ext;
    assert p == (userId + "/") + (Decimal(now) + "." + ext);
    assert p == (userId + "/" + Decimal(now)) + ("." + ext);
    p
  }

  /** Different upload times give different object paths for the same user and extension. */
  lemma ObjectPathDistinctTimes(userId: string, m: nat, n: nat, ext: string)
    requires m != n
    ensures ObjectPath(userId, m, ext) != ObjectPath(userId, n, ext)
  {
    if ObjectPath(userId, m, ext) == ObjectPath(userId, n, ext) {
      var p := ObjectPath(userId, m, ext);
      var dm, dn := Decimal(m), Decimal(n);
      // Both paths split at their last '.' into the same two halves.
      assert p == (userId + "/" + dm) + "." + ext;
      assert p == (userId + "/" + dn) + "." + ext;
      assert userId + "/" + dm == p[..|p| - |ext| - 1] == userId + "/" + dn;
      assert dm == (userId + "/" + dm)[|userId| + 1..];
      assert dn == (userId + "/" + dn)[|userId| + 1..];
      DecimalInjective(m, n);
    }
  }

  /** `image/${fileExt === 'jpg' ? 'jpeg' : fileExt}`. */
  function ContentType(ext: string): (ct: string)
    ensures |ct| >= 6 && ct[..6] == "image/"
    ensures |ct| > 6 <==> ext != []
    ensures ext == "jpg" ==> ct == "image/jpeg"
    ensures ext != "jpg" ==> ct == "image/" + ext
  {
    "image/" + (if ext == "jpg" then "jpeg" else ext)
  }

  /** The type is image/jpeg for both spellings of the JPEG extension and for no other. */
  lemma ContentTypeJpeg(ext: string)
    ensures ContentType(ext) == "image/jpeg" <==> ext == "jpg" || ext == "jpeg"
  {
    if ContentType(ext) == "image/jpeg" && ext != "jpg" {
      assert ext == ContentType(ext)[6..];
    }
  }

  /** Two extensions share a content type iff they are equal or both spell JPEG. */
  lemma ContentTypeDistinguishes(a: string, b: string)
    ensures ContentType(a) == ContentType(b) <==>
              a == b || ((a == "jpg" || a == "jpeg") && (b == "jpg" || b == "jpeg"))
  {
    ContentTypeJpeg(a);
    ContentTypeJpeg(b);
    if ContentType(a) == ContentType(b) && a != "jpg" && b != "jpg" {
      assert a == ContentType(a)[6..];
      assert b == ContentType(b)[6..];
    }
  }

  /**
   * `fileName.split('/').pop()`: the last '/'-segment, the name the form sends.
   * It is the longest '/'-free suffix of the path: either the whole path or
   * the text after a '/'.
   */
  function FormFileName(path: string): (name: string)
    ensures |name| <= |path|
    ensures path[|path| - |name|..] == name
    ensures '/' !in name
    ensures |name| == |path| || path[|path| - |name| - 1] == '/'
  {
    var parts := Split(path, '/');
    JoinSplit(path, '/');
    JoinEndsWithLast(parts, '/');
    SplitPiecesSepFree(path, '/');
    Last(parts)
  }

  /** Joining ends with the last piece, preceded by the separator when there are several. */
  lemma {:induction false} JoinEndsWithLast(parts: seq<string>, sep: char)
    requires |parts| > 0
    ensures |Join(parts, sep)| >= |Last(parts)|
    ensures Join(parts, sep)[|Join(parts, sep)| - |Last(parts)|..] == Last(parts)
    ensures |parts| == 1 ==> Join(parts, sep) == Last(parts)
    ensures |parts| > 1 ==> |Join(parts, sep)| > |Last(parts)|
                            && Join(parts, sep)[|Join(parts, sep)| - |Last(parts)| - 1] == sep
  {
    if |parts| > 1 {
      var tail := Join(parts[1..], sep);
      JoinEndsWithLast(parts[1..], sep);
      assert Last(parts[1..]) == Last(parts);
      assert Join(parts, sep) == (parts[0] + [sep]) + tail;
    }
  }

  /** When the extension has no '/', the form file name is timestamp.ext whatever the user id. */
  lemma FormFileNameOfObjectPath(userId: string, now: nat, ext: string)
    requires '/' !in ext
    ensures FormFileName(ObjectPath(userId, now, ext)) == Decimal(now) + "." + ext
  {
    DecimalHasNoPunctuation(now);
    var name := Decimal(now) + "." + ext;
    assert ObjectPath(userId, now, ext) == userId + "/" + name;
    SplitLast(userId, '/', name);
  }

  /**
   * `${supabaseUrl}/storage/v1/object/post-images/${fileName}`: the configured
   * base, the bucket's upload endpoint, then the object path.
   */
  function UploadUrl(baseUrl: string, path: string): (u: string)
    ensures |u| == |baseUrl| + |UploadPrefix| + |path|
    ensures u[..|baseUrl|] == baseUrl
    ensures u[|baseUrl|..|baseUrl| + |UploadPrefix|] == UploadPrefix
    ensures u[|u| - |path|..] == path
  {
    var u := baseUrl + UploadPrefix + path;
    assert u == baseUrl + (UploadPrefix + path);
    u
  }

  /**
   * `${supabaseUrl}/storage/v1/object/public/post-images/${fileName}`: the
   * configured base, the bucket's public endpoint, then the object path.
   */
  function PublicUrl(baseUrl: string, path: string): (u: string)
    ensures |u| == |baseUrl| + |PublicPrefix| + |path|
    ensures u[..|baseUrl|] == baseUrl
    ensures u[|baseUrl|..|baseUrl| + |PublicPrefix|] == PublicPrefix
    ensures u[|u| - |path|..] == path
  {
    var u := baseUrl + PublicPrefix + path;
    assert u == baseUrl + (PublicPrefix + path);
    u
  }

  /** Under one base URL, the upload URL names exactly one object path. */
  lemma UploadUrlInjective(baseUrl: string, p: string, q: string)
    ensures UploadUrl(baseUrl, p) == UploadUrl(baseUrl, q) <==> p == q
  {
    if UploadUrl(baseUrl, p) == UploadUrl(baseUrl, q) {
      var u := UploadUrl(baseUrl, p);
      assert p == u[|u| - |p|..] == q;
    }
  }

  /** Under one base URL, the public URL names exactly one object path. */
  lemma PublicUrlInjective(baseUrl: string, p: string, q: string)
    ensures PublicUrl(baseUrl, p) == PublicUrl(baseUrl, q) <==> p == q
  {
    if PublicUrl(baseUrl, p) == PublicUrl(baseUrl, q) {
      var u := PublicUrl(baseUrl, p);
      assert p == u[|u| - |p|..] == q;
    }
  }

  /** Under one base URL, no public URL is an upload URL: they part at "public/" vs "post-images/". */
  lemma PublicUrlIsNotUploadUrl(baseUrl: string, p: string, q: string)
    ensures PublicUrl(baseUrl, p) != UploadUrl(baseUrl, q)
  {
    var i := |baseUrl| + 20;
    assert PublicUrl(baseUrl, p) == baseUrl + PublicPrefix + p;
    assert UploadUrl(baseUrl, q) == baseUrl + UploadPrefix + q;
    assert PublicPrefix[20] == 'u' && UploadPrefix[20] == 'o';
    assert PublicUrl(baseUrl, p)[i] == 'u';
    assert UploadUrl(baseUrl, q)[i] == 'o';
  }

  /** Outcome of an awaited call: it threw, or it returned a yes/no answer. */
  datatype Effect = Threw | Returned(ok: bool)

  /** The multipart upload `uploadImage` sends. */
  datatype UploadRequest = UploadRequest(url: string, fileUri: string, fileName: string, contentType: string)

  /** What one call of `uploadImage` did: the request it sent, if any, and what it resolved to. */
  datatype UploadTrace = UploadTrace(sent: Option<UploadRequest>, result: Option<string>)

  /**
   * `uploadImage(uri, userId)`. `session` is the outcome of `getSession()`
   * (Returned(true) when a session exists), `response` the outcome of the POST
   * (Returned(true) when `response.ok`); `now` is `Date.now()` and `baseUrl` is
   * the configured project URL. Any thrown error, a missing session or a
   * non-OK response resolve to null (None).
   */
  function UploadImage(uri: string, userId: string, baseUrl: string, now: nat,
                       session: Effect, response: Effect): (t: UploadTrace)
    ensures t.sent.Some? <==> session == Returned(true)
    ensures t.result.Some? <==> session == Returned(true) && response == Returned(true)
  {
    if session != Returned(true) then UploadTrace(None, None)
    else
      var ext := FileExt(uri);
      var path := ObjectPath(userId, now, ext);
      var request := UploadRequest(UploadUrl(baseUrl, path), uri, FormFileName(path), ContentType(ext));
      if response != Returned(true) then UploadTrace(Some(request), None)
      else UploadTrace(Some(request), Some(PublicUrl(baseUrl, path)))
  }

  /**
   * A successful upload returns the public URL of exactly the object it
   * posted: both URLs carry the same path userId/now.ext after their fixed
   * prefixes, the path's extension is the one derived from the URI, and the
   * returned URL ends with the file name the form sent.
   */
  lemma UploadPublishesPostedObject(uri: string, userId: string, baseUrl: string, now: nat,
                                    session: Effect, response: Effect)
    requires session == Returned(true) && response == Returned(true)
    ensures var t := UploadImage(uri, userId, baseUrl, now, session, response);
            var url, pub := t.sent.value.url, t.result.value;
            var path := userId + "/" + Decimal(now) + "." + FileExt(uri);
            && url == baseUrl + UploadPrefix + path
            && pub == baseUrl + PublicPrefix + path
            && |t.sent.value.fileName| <= |pub|
            && pub[|pub| - |t.sent.value.fileName|..] == t.sent.value.fileName
            && t.sent.value.fileUri == uri
            && t.sent.value.contentType == ContentType(FileExt(uri))
  {
    var t := UploadImage(uri, userId, baseUrl, now, session, response);
    var path := ObjectPath(userId, now, FileExt(uri));
    var pub := t.result.value;
    var name := t.sent.value.fileName;
    assert pub == (baseUrl + PublicPrefix) + path;
    assert pub[|pub| - |path|..] == path;
    assert pub[|pub| - |name|..] == path[|path| - |name|..];
  }

  /**
   * Whatever the response, a sent request goes to the upload URL of
   * userId/now.ext, names the file with the last '/'-segment of that URL, and
   * carries the original URI and the derived content type.
   */
  lemma UploadRequestContents(uri: string, userId: string, baseUrl: string, now: nat,
                              session: Effect, response: Effect)
    requires session == Returned(true)
    ensures var r := UploadImage(uri, userId, baseUrl, now, session, response).sent.value;
            && r.url == UploadUrl(baseUrl, ObjectPath(userId, now, FileExt(uri)))
            && |r.fileName| <= |r.url|
            && r.url[|r.url| - |r.fileName|..] == r.fileName
            && '/' !in r.fileName
            && |r.fileName| < |r.url|
            && r.url[|r.url| - |r.fileName| - 1] == '/'
            && r.fileUri == uri
            && r.contentType == ContentType(FileExt(uri))
  {
    var ext := FileExt(uri);
    var path := ObjectPath(userId, now, ext);
    var r := UploadImage(uri, userId, baseUrl, now, session, response).sent.value;
    assert r == UploadRequest(UploadUrl(baseUrl, path), uri, FormFileName(path), ContentType(ext));
    var u := r.url;
    assert u == baseUrl + UploadPrefix + path;
    assert u[|u| - |path|..] == path;
    assert u[|u| - |r.fileName|..] == path[|path| - |r.fileName|..];
  }

  /**
   * Two uploads by one user whose URIs give the same extension post to the
   * same URL iff they read the same millisecond. `uploadImage` calls started
   * together (as a `Promise.all` over several images does) can therefore
   * target one object, and with `x-upsert: false` the second POST is refused.
   */
  lemma UploadUrlCollision(uri1: string, uri2: string, userId: string, baseUrl: string,
                           m: nat, n: nat, r1: Effect, r2: Effect)
    requires FileExt(uri1) == FileExt(uri2)
    ensures UploadImage(uri1, userId, baseUrl, m, Returned(true), r1).sent.value.url
              == UploadImage(uri2, userId, baseUrl, n, Returned(true), r2).sent.value.url
            <==> m == n
  {
    var ext := FileExt(uri1);
    UploadUrlInjective(baseUrl, ObjectPath(userId, m, ext), ObjectPath(userId, n, ext));
    if m != n {
      ObjectPathDistinctTimes(userId, m, n, ext);
    }
  }

  /** When the extension has no '/', the form carries timestamp.ext and the user id stays out of it. */
  lemma UploadFormName(uri: string, userId: string, baseUrl: string, now: nat, response: Effect)
    requires '/' !in FileExt(uri)
    ensures UploadImage(uri, userId, baseUrl, now, Returned(true), response).sent.value.fileName
              == Decimal(now) + "." + FileExt(uri)
  {
    FormFileNameOfObjectPath(userId, now, FileExt(uri));
  }
}
