/** Conversions between the HTTP request and response shapes and the domain
    (handler/user_mapper.go). */
module HandlerMapper {
  import opened Domain

  datatype UserResponse = UserResponse(
    id: string,
    firstName: string,
    lastName: string,
    email: string,
    isActive: bool,
    createdDate: string,
    updatedDate: string)

  datatype UserCreateRequest = UserCreateRequest(firstName: string, lastName: string, email: string)

  datatype UserUpdateRequest = UserUpdateRequest(firstName: string, lastName: string, email: string)

  /** White space as Go's unicode.IsSpace defines it. */
  const WhiteSpace: set<char> := {
    '\U{9}', '\U{A}', '\U{B}', '\U{C}', '\U{D}', ' ', '\U{85}', '\U{A0}', '\U{1680}',
    '\U{2000}', '\U{2001}', '\U{2002}', '\U{2003}', '\U{2004}', '\U{2005}', '\U{2006}',
    '\U{2007}', '\U{2008}', '\U{2009}', '\U{200A}', '\U{2028}', '\U{2029}', '\U{202F}',
    '\U{205F}', '\U{3000}'}

  predicate IsSpace(c: char)
  {
    c in WhiteSpace
  }

  /** Every character of s outside positions from .. to - 1 is white space. */
  predicate SpaceOutside(s: string, from: int, to: int)
  {
    forall i :: 0 <= i < |s| && (i < from || to <= i) ==> IsSpace(s[i])
  }

  /** Neither starts nor ends with white space. */
  predicate IsTrimmed(s: string)
  {
    s == [] || (!IsSpace(s[0]) && !IsSpace(s[|s| - 1]))
  }

  /** r is s with its leading and trailing white space removed: a trimmed
      piece of s with only white space before and after it. */
  ghost predicate IsTrimOf(s: string, r: string)
  {
    && IsTrimmed(r)
    && exists k :: PieceAt(s, r, k)
  }

  /** r occurs in s at position k with only white space around it. */
  predicate PieceAt(s: string, r: string, k: int)
  {
    0 <= k <= |s| - |r| && s[k..k + |r|] == r && SpaceOutside(s, k, k + |r|)
  }

  /** A string has at most one trimmed form. */
  lemma TrimOfUnique(s: string, r1: string, r2: string)
    requires IsTrimOf(s, r1) && IsTrimOf(s, r2)
    ensures r1 == r2
  {
    var k1 :| PieceAt(s, r1, k1);
    var k2 :| PieceAt(s, r2, k2);
    assert r1 != [] ==> s[k1] == r1[0] && s[k1 + |r1| - 1] == r1[|r1| - 1];
    assert r2 != [] ==> s[k2] == r2[0] && s[k2 + |r2| - 1] == r2[|r2| - 1];
    // an empty trimmed form means s is all white space, which a non-empty one rules out
    assert r1 == [] <==> r2 == [];
    if r1 != [] {
      // both start at the first non-space character and end after the last one
      assert k1 == k2;
      assert |r1| == |r2|;
    }
  }

  /** strings.TrimLeft of white space. */
  function TrimLeft(s: string): (r: string)
    ensures |r| <= |s| && r == s[|s| - |r|..]
    ensures SpaceOutside(s, |s| - |r|, |s|)
    ensures r == [] || !IsSpace(r[0])
  {
    if |s| > 0 && IsSpace(s[0]) then
      var r := TrimLeft(s[1..]);
      assert s[1..][|s| - 1 - |r|..] == s[|s| - |r|..];
      forall i | 1 <= i < |s| - |r| ensures IsSpace(s[i]) {
        assert s[i] == s[1..][i - 1];
      }
      r
    else s
  }

  /** strings.TrimRight of white space. */
  function TrimRight(s: string): (r: string)
    ensures |r| <= |s| && r == s[..|r|]
    ensures SpaceOutside(s, 0, |r|)
    ensures r == [] || !IsSpace(r[|r| - 1])
  {
    if |s| > 0 && IsSpace(s[|s| - 1]) then
      var r := TrimRight(s[..|s| - 1]);
      assert s[..|s| - 1][..|r|] == s[..|r|];
      forall i | |r| <= i < |s| - 1 ensures IsSpace(s[i]) {
        assert s[i] == s[..|s| - 1][i];
      }
      r
    else s
  }

  /** Trimming the left and then the right of s leaves a trimmed form of s. */
  lemma TrimBoth(s: string)
    ensures IsTrimOf(s, TrimRight(TrimLeft(s)))
  {
    var left := TrimLeft(s);
    var r := TrimRight(left);
    var k := |s| - |left|;
    assert s[k..k + |r|] == r;
    forall i | k + |r| <= i < |s| ensures IsSpace(s[i]) {
      assert s[i] == left[i - k];
    }
    assert PieceAt(s, r, k);
    assert r != [] ==> r[0] == left[0];
  }

  /** strings.TrimSpace: the trimmed form of s. */
  function TrimSpace(s: string): (r: string)
    ensures IsTrimOf(s, r)
  {
    TrimBoth(s);
    TrimRight(TrimLeft(s))
  }

  /** TrimSpace leaves a string unchanged exactly when it is already trimmed. */
  lemma TrimSpaceKeepsTrimmed(s: string)
    ensures TrimSpace(s) == s <==> IsTrimmed(s)
  {
    if IsTrimmed(s) {
      assert PieceAt(s, s, 0);
      TrimOfUnique(s, s, TrimSpace(s));
    }
  }

  /** Trimming twice trims once. */
  lemma TrimSpaceIdempotent(s: string)
    ensures TrimSpace(TrimSpace(s)) == TrimSpace(s)
  {
    TrimSpaceKeepsTrimmed(TrimSpace(s));
  }

  /** The create input: the request's fields without surrounding white space. */
  function MapCreateRequestToInput(request: UserCreateRequest): (input: UserCreateInput)
    ensures IsTrimOf(request.firstName, input.firstName)
    ensures IsTrimOf(request.lastName, input.lastName)
    ensures IsTrimOf(request.email, input.email)
    ensures IsTrimmed(request.firstName) && IsTrimmed(request.lastName) && IsTrimmed(request.email) ==>
      input == UserCreateInput(request.firstName, request.lastName, request.email)
  {
    TrimSpaceKeepsTrimmed(request.firstName);
    TrimSpaceKeepsTrimmed(request.lastName);
    TrimSpaceKeepsTrimmed(request.email);
    UserCreateInput(TrimSpace(request.firstName), TrimSpace(request.lastName), TrimSpace(request.email))
  }

  /** The update input: the request's fields and the path reference without
      surrounding white space. */
  function MapUpdateRequestToInput(reference: string, request: UserUpdateRequest): (input: UserUpdateInput)
    ensures IsTrimOf(request.firstName, input.firstName)
    ensures IsTrimOf(request.lastName, input.lastName)
    ensures IsTrimOf(request.email, input.email)
    ensures IsTrimOf(reference, input.reference)
    ensures IsTrimmed(request.firstName) && IsTrimmed(request.lastName) && IsTrimmed(request.email)
            && IsTrimmed(reference) ==>
      input == UserUpdateInput(request.firstName, request.lastName, request.email, reference)
  {
    TrimSpaceKeepsTrimmed(request.firstName);
    TrimSpaceKeepsTrimmed(request.lastName);
    TrimSpaceKeepsTrimmed(request.email);
    TrimSpaceKeepsTrimmed(reference);
    UserUpdateInput(TrimSpace(request.firstName), TrimSpace(request.lastName), TrimSpace(request.email),
                    TrimSpace(reference))
  }

  /** Mapping a request built from a mapped input gives that input again. */
  lemma MapCreateIdempotent(request: UserCreateRequest)
    ensures var input := MapCreateRequestToInput(request);
      MapCreateRequestToInput(UserCreateRequest(input.firstName, input.lastName, input.email)) == input
  {
  }

  /** The response for a user: its reference as id, its profile and active
      flag unchanged, and its timestamps rendered by formatTime (RFC 3339 in
      the service). */
  function MapDomainToResponse(user: User, formatTime: Time -> string): (response: UserResponse)
    ensures response.id == user.reference && response.isActive == user.isActive
    ensures response.firstName == user.firstName && response.lastName == user.lastName
    ensures response.email == user.email
    ensures response.createdDate == formatTime(user.createdDate)
    ensures response.updatedDate == formatTime(user.updatedDate)
  {
    UserResponse(user.reference, user.firstName, user.lastName, user.email, user.isActive,
                 formatTime(user.createdDate), formatTime(user.updatedDate))
  }

  /** The responses for a list of users, one per user and in order. */
  method MapDomainListToResponseList(users: seq<User>, formatTime: Time -> string)
    returns (responses: seq<UserResponse>)
    ensures |responses| == |users|
    ensures forall i :: 0 <= i < |users| ==> responses[i] == MapDomainToResponse(users[i], formatTime)
  {
    responses := [];
    for k := 0 to |users|
      invariant |responses| == k
      invariant forall i :: 0 <= i < k ==> responses[i] == MapDomainToResponse(users[i], formatTime)
    {
      responses := responses + [MapDomainToResponse(users[k], formatTime)];
    }
  }
}
