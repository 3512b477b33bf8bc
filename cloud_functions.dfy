/**
 * The string decisions of the HTTP API and the storage trigger: the bearer
 * header guard and token extraction of `getFirebaseUser`, the search filter
 * built by `getFilterStringFromUsers`, and the skip test and thumbnail
 * naming of `createThumnail`.
 */
module CloudFunctions {
  import opened Wrappers
  import opened JsStrings
  import opened NodePath

  // ---------------------------------------------------------------------------
  // getFirebaseUser

  const BEARER: string := "Bearer "

  /**
   * What the guard decides: answer 403 without calling `next`, or hand the
   * extracted id token to `verifyIdToken`.
   */
  datatype AuthOutcome = Unauthorized(status: int, body: string) | VerifyIdToken(idToken: string)

  /**
   * The `Authorization` header check and `split("Bearer ")[1]`: the request
   * is refused exactly when the header is missing or does not start with
   * "Bearer "; otherwise the token is what follows "Bearer ", up to any
   * further "Bearer ".
   */
  function GetFirebaseUser(authorization: Option<string>): (r: AuthOutcome)
    ensures r.Unauthorized? <==> authorization.None? || !StartsWith(authorization.value, BEARER)
    ensures r.Unauthorized? ==> r.status == 403 && r.body == "Unauthorized"
    ensures r.VerifyIdToken? ==>
      StartsWith(authorization.value, BEARER + r.idToken) && !Includes(r.idToken, BEARER)
    ensures r.VerifyIdToken? ==>
      authorization.value == BEARER + r.idToken || StartsWith(authorization.value, BEARER + r.idToken + BEARER)
  {
    if authorization.None? || authorization.value == "" || !StartsWith(authorization.value, BEARER) then
      Unauthorized(403, "Unauthorized")
    else
      var header := authorization.value;
      var parts := Split(header, BEARER);
      var rest := header[|BEARER|..];
      assert IndexOf(header, BEARER) == 0 by { assert OccursAt(header, BEARER, 0); }
      assert parts[1..] == Split(rest, BEARER);
      SplitPiecesOmitSeparator(header, BEARER);
      TokenFollowsBearer(header, parts[1]);
      VerifyIdToken(parts[1])
  }

  /**
   * When the text after "Bearer " starts with the token and is the token or
   * continues with another "Bearer ", so does the header after "Bearer ".
   */
  lemma TokenFollowsBearer(header: string, token: string)
    requires StartsWith(header, BEARER)
    requires token == Split(header[|BEARER|..], BEARER)[0]
    ensures StartsWith(header, BEARER + token)
    ensures header == BEARER + token || StartsWith(header, BEARER + token + BEARER)
  {
    var rest := header[|BEARER|..];
    assert header == BEARER + rest;
    JoinStartsWithFirst(Split(rest, BEARER), BEARER);
    SplitFirstPiece(rest, BEARER);
    assert (BEARER + token)[..|BEARER|] == BEARER;
    if StartsWith(rest, token + BEARER) {
      assert header[..|BEARER + token + BEARER|] == BEARER + rest[..|token + BEARER|];
    }
  }

  /** The token of "Bearer " + t is t itself when t holds no further "Bearer ". */
  lemma BearerTokenRoundTrip(t: string)
    requires !Includes(t, BEARER)
    ensures GetFirebaseUser(Some(BEARER + t)) == VerifyIdToken(t)
  {
    var header := BEARER + t;
    assert header[..|BEARER|] == BEARER;
    assert header[|BEARER|..] == t;
    assert OccursAt(header, BEARER, 0);
    SplitWithout(t, BEARER);
  }

  // ---------------------------------------------------------------------------
  // getFilterStringFromUsers

  /** A template literal's rendering of a value that is a string or `null`. */
  function Interpolate(v: Option<string>): string {
    match v
    case None => "null"
    case Some(s) => s
  }

  /**
   * The clauses of the filter, in order: one for `userId`, then one per
   * followed user.
   */
  function FilterClauses(userId: Option<string>, users: seq<string>): (cs: seq<string>)
    ensures |cs| == |users| + 1
    ensures cs[0] == "userId:" + Interpolate(userId)
    ensures forall i :: 0 <= i < |users| ==> cs[i + 1] == "userId:" + users[i]
  {
    if users == [] then ["userId:" + Interpolate(userId)]
    else FilterClauses(userId, users[..|users| - 1]) + ["userId:" + users[|users| - 1]]
  }

  /** One more user adds " OR userId:<id>" to the joined clauses. */
  lemma FilterStep(userId: Option<string>, users: seq<string>, i: nat)
    requires i < |users|
    ensures Join(FilterClauses(userId, users[..i + 1]), " OR ")
         == Join(FilterClauses(userId, users[..i]), " OR ") + " OR userId:" + users[i]
  {
    var clause := "userId:" + users[i];
    var before := FilterClauses(userId, users[..i]);
    assert users[..i + 1][..i] == users[..i];
    assert FilterClauses(userId, users[..i + 1]) == before + [clause];
    JoinSnoc(before, clause, " OR ");
    assert Join(before, " OR ") + " OR " + clause == Join(before, " OR ") + " OR userId:" + users[i];
  }

  /**
   * `getFilterStringFromUsers`: the clauses joined with " OR ", built by
   * appending one " OR userId:<id>" per user in order. With no users it is
   * the `userId` clause alone, and it always starts with that clause
   * ("userId:null" when `userId` is null).
   */
  method GetFilterStringFromUsers(userId: Option<string>, users: seq<string>) returns (base: string)
    ensures base == Join(FilterClauses(userId, users), " OR ")
    ensures StartsWith(base, "userId:" + Interpolate(userId))
    ensures users == [] ==> base == "userId:" + Interpolate(userId)
  {
    base := "userId:" + Interpolate(userId);
    for i := 0 to |users|
      invariant base == Join(FilterClauses(userId, users[..i]), " OR ")
    {
      FilterStep(userId, users, i);
      base := base + " OR userId:" + users[i];
    }
    assert users[..|users|] == users;
    JoinStartsWithFirst(FilterClauses(userId, users), " OR ");
  }

  // ---------------------------------------------------------------------------
  // createThumnail

  /** The prefix of the large thumbnail (the default) and of the small one. */
  const LARGE_PREFIX: string := "thumb@"
  const SMALL_PREFIX: string := "thumb-sm@"

  /** The two prefixes `onFileChange` calls `createThumnail` with. */
  predicate IsThumbnailPrefix(prefix: string) {
    prefix == LARGE_PREFIX || prefix == SMALL_PREFIX
  }

  /** Neither thumbnail prefix holds a slash. */
  lemma ThumbnailPrefixHasNoSlash(prefix: string)
    requires IsThumbnailPrefix(prefix)
    ensures '/' !in prefix
  {
  }

  /** The fields of a finalized storage object the trigger reads. */
  datatype StorageObject = StorageObject(name: string, contentType: Option<string>)

  /**
   * What one call of `createThumnail` does: return false, fail because the
   * file has no content type, or upload a thumbnail under `thumbName` to
   * `destination`.
   */
  datatype ThumbnailOutcome = Skipped | ContentTypeMissing | Upload(thumbName: string, destination: string)

  /** `filePath.split("/").pop()`: the last segment, which holds no slash. */
  function FileName(filePath: string): (r: string)
    ensures '/' !in r
  {
    var parts := Split(filePath, "/");
    SplitPiecesOmitSeparator(filePath, "/");
    IncludesOneChar(parts[|parts| - 1], '/');
    parts[|parts| - 1]
  }

  /**
   * The file name is the path's final segment: a suffix of the path that is
   * the whole path or follows the path's last slash.
   */
  lemma FileNameIsLastSegment(filePath: string)
    ensures var r := FileName(filePath);
      && |r| <= |filePath| && filePath[|filePath| - |r|..] == r
      && (|r| == |filePath| || filePath[|filePath| - |r| - 1] == '/')
  {
    var r := FileName(filePath);
    SplitLastPiece(filePath, "/");
    assert r == Last(Split(filePath, "/"));
    if r != filePath {
      var tail := filePath[|filePath| - |r| - 1..];
      assert tail == "/" + r;
      assert filePath[|filePath| - |r| - 1] == tail[0] == '/';
      assert filePath[|filePath| - |r|..] == tail[1..] == r;
    }
  }

  /**
   * `createThumnail(file, prefix)` as written: skipped when the file name
   * contains the prefix or "thumb-sm@", or when the content type (read only
   * when the name tests fail) does not contain "image"; otherwise the
   * thumbnail `prefix + fileName` goes to the file's own directory.
   */
  function CreateThumbnail(file: StorageObject, prefix: string): (r: ThumbnailOutcome)
    ensures var fileName := FileName(file.name);
      && (r.Skipped? <==>
            Includes(fileName, prefix) || Includes(fileName, SMALL_PREFIX)
            || (file.contentType.Some? && !Includes(file.contentType.value, "image")))
      && (r.ContentTypeMissing? <==>
            !Includes(fileName, prefix) && !Includes(fileName, SMALL_PREFIX) && file.contentType.None?)
      && (r.Upload? ==>
            r.thumbName == prefix + fileName
            && r.destination == JoinPath(DirName(file.name), prefix + fileName))
  {
    var fileName := FileName(file.name);
    if Includes(fileName, prefix) || Includes(fileName, SMALL_PREFIX) then Skipped
    else if file.contentType.None? then ContentTypeMissing
    else if !Includes(file.contentType.value, "image") then Skipped
    else
      var thumbName := prefix + fileName;
      Upload(thumbName, JoinPath(DirName(file.name), thumbName))
  }

  /** The file name of a path joined onto any directory is the name joined. */
  lemma FileNameOfJoin(dir: string, name: string)
    requires '/' !in name
    ensures FileName(JoinPath(dir, name)) == name
  {
    IncludesOneChar(name, '/');
    assert "/" == ['/'];
    if dir == "" || dir == "." {
      SplitWithout(name, "/");
    } else if dir[|dir| - 1] == '/' {
      var q := dir[..|dir| - 1] + "/" + name;
      assert JoinPath(dir, name) == q by {
        assert dir == dir[..|dir| - 1] + "/";
      }
      SplitLast(dir[..|dir| - 1], "/", name);
      assert FileName(q) == Last(Split(q, "/"));
    } else {
      var q := dir + "/" + name;
      assert JoinPath(dir, name) == q;
      SplitLast(dir, "/", name);
      assert FileName(q) == Last(Split(q, "/"));
    }
  }

  /** The file name of a thumbnail's destination is the thumbnail's name. */
  lemma ThumbnailFileName(filePath: string, prefix: string)
    requires '/' !in prefix
    ensures FileName(JoinPath(DirName(filePath), prefix + FileName(filePath))) == prefix + FileName(filePath)
  {
    var n := prefix + FileName(filePath);
    assert '/' !in n;
    FileNameOfJoin(DirName(filePath), n);
  }

  /**
   * The thumbnail is uploaded next to its source: the directory of its
   * destination is the directory of the source file (for a path without
   * empty interior segments), and its file name is the thumbnail name.
   */
  lemma ThumbnailStaysInDirectory(file: StorageObject, prefix: string)
    requires '/' !in prefix && prefix != ""
    requires NoDoubleSlash(file.name)
    requires CreateThumbnail(file, prefix).Upload?
    ensures var r := CreateThumbnail(file, prefix);
      DirName(r.destination) == DirName(file.name) && FileName(r.destination) == r.thumbName
  {
    var n := prefix + FileName(file.name);
    assert '/' !in n;
    JoinStaysInDirectory(file.name, n);
    ThumbnailFileName(file.name, prefix);
  }

  /**
   * A call never processes its own output again: the uploaded thumbnail's
   * name contains the call's prefix, whatever its content type.
   */
  lemma OwnThumbnailIsSkipped(file: StorageObject, prefix: string, contentType: Option<string>)
    requires '/' !in prefix
    requires CreateThumbnail(file, prefix).Upload?
    ensures CreateThumbnail(StorageObject(CreateThumbnail(file, prefix).destination, contentType), prefix) == Skipped
  {
    ThumbnailFileName(file.name, prefix);
    IncludesPiece("", prefix, FileName(file.name));
    assert "" + prefix + FileName(file.name) == prefix + FileName(file.name);
  }

  /**
   * As written, the small-thumbnail call does process a large thumbnail:
   * for a bare image name such as "cat.png", the "thumb@" call uploads
   * "thumb@cat.png", and the "thumb-sm@" call on that upload produces
   * "thumb-sm@thumb@cat.png".
   */
  lemma LargeThumbnailIsReprocessed(name: string)
    requires '/' !in name && 'h' !in name && '-' !in name
    ensures CreateThumbnail(StorageObject(name, Some("image/png")), LARGE_PREFIX)
         == Upload(LARGE_PREFIX + name, LARGE_PREFIX + name)
    ensures CreateThumbnail(StorageObject(LARGE_PREFIX + name, Some("image/png")), SMALL_PREFIX)
         == Upload(SMALL_PREFIX + (LARGE_PREFIX + name), SMALL_PREFIX + (LARGE_PREFIX + name))
  {
    assert 'h' in LARGE_PREFIX && 'h' in SMALL_PREFIX && '-' in SMALL_PREFIX;
    assert '/' !in LARGE_PREFIX && '-' !in LARGE_PREFIX;
    BareImageIsUploaded(name, LARGE_PREFIX, 'h');
    BareImageIsUploaded(LARGE_PREFIX + name, SMALL_PREFIX, '-');
  }

  /**
   * An image with a bare file name is uploaded to `prefix + name` in the
   * same directory when the name misses a character that the prefix and
   * "thumb-sm@" share.
   */
  lemma BareImageIsUploaded(name: string, prefix: string, c: char)
    requires '/' !in name && c !in name && c in prefix && c in SMALL_PREFIX
    ensures CreateThumbnail(StorageObject(name, Some("image/png")), prefix) == Upload(prefix + name, prefix + name)
  {
    IncludesPiece("", "image", "/png");
    assert "" + "image" + "/png" == "image/png";
    IncludesOneChar(name, '/');
    assert "/" == ['/'];
    SplitWithout(name, "/");
    DirNameOfName(name);
    MissingCharExcludes(name, prefix, c);
    MissingCharExcludes(name, SMALL_PREFIX, c);
  }

  /**
   * As written, reprocessing stops at the second generation: whatever the
   * two calls upload from an upload of theirs is skipped by both.
   */
  lemma SecondGenerationIsSkipped(
    file: StorageObject, p: string, type1: Option<string>, q: string, type2: Option<string>, r: string)
    requires IsThumbnailPrefix(p) && IsThumbnailPrefix(q) && IsThumbnailPrefix(r)
    requires CreateThumbnail(file, p).Upload?
    requires CreateThumbnail(StorageObject(CreateThumbnail(file, p).destination, type1), q).Upload?
    ensures
      var first := StorageObject(CreateThumbnail(file, p).destination, type1);
      CreateThumbnail(StorageObject(CreateThumbnail(first, q).destination, type2), r) == Skipped
  {
    var first := StorageObject(CreateThumbnail(file, p).destination, type1);
    ThumbnailPrefixHasNoSlash(p);
    ThumbnailPrefixHasNoSlash(q);
    ThumbnailFileName(file.name, p);
    IncludesPiece("", p, FileName(file.name));
    assert "" + p + FileName(file.name) == p + FileName(file.name);
    // the large call skips every first-generation file, so only the small call uploads again
    assert q == SMALL_PREFIX;
    ThumbnailFileName(first.name, q);
    IncludesPiece("", SMALL_PREFIX, FileName(first.name));
    assert "" + SMALL_PREFIX + FileName(first.name) == SMALL_PREFIX + FileName(first.name);
  }

  /**
   * The evident intent: skip every generated thumbnail, whichever call made
   * it, by testing the file name against both prefixes.
   */
  function CreateThumbnailGuarded(file: StorageObject, prefix: string): (r: ThumbnailOutcome)
    ensures var fileName := FileName(file.name);
      && (r.Skipped? <==>
            Includes(fileName, prefix) || Includes(fileName, LARGE_PREFIX) || Includes(fileName, SMALL_PREFIX)
            || (file.contentType.Some? && !Includes(file.contentType.value, "image")))
      && (r.Upload? ==>
            r.thumbName == prefix + fileName
            && r.destination == JoinPath(DirName(file.name), prefix + fileName))
  {
    var fileName := FileName(file.name);
    if Includes(fileName, prefix) || Includes(fileName, LARGE_PREFIX) || Includes(fileName, SMALL_PREFIX) then
      Skipped
    else if file.contentType.None? then ContentTypeMissing
    else if !Includes(file.contentType.value, "image") then Skipped
    else
      var thumbName := prefix + fileName;
      Upload(thumbName, JoinPath(DirName(file.name), thumbName))
  }

  /** With the guard, no thumbnail is ever processed again, by either call. */
  lemma GuardedThumbnailIsNeverReprocessed(file: StorageObject, p: string, q: string, contentType: Option<string>)
    requires IsThumbnailPrefix(p) && IsThumbnailPrefix(q)
    requires CreateThumbnailGuarded(file, p).Upload?
    ensures CreateThumbnailGuarded(StorageObject(CreateThumbnailGuarded(file, p).destination, contentType), q) == Skipped
  {
    ThumbnailPrefixHasNoSlash(p);
    ThumbnailFileName(file.name, p);
    IncludesPiece("", p, FileName(file.name));
    assert "" + p + FileName(file.name) == p + FileName(file.name);
  }
}
