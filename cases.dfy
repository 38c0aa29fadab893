/** Case construction: `buildCrmCase` validates a submitted inquiry in a
    fixed order and builds the stored record from it. */
module Cases {
  import opened Wrappers
  import opened Text
  import opened Email
  import opened Phone
  import opened Redaction

  datatype CaseStatus = New | InProgress | Resolved | Closed {
    function Name(): string {
      match this
      case New => "New"
      case InProgress => "In Progress"
      case Resolved => "Resolved"
      case Closed => "Closed"
    }
  }

  datatype Category = General | Benefits | Healthcare | Education {
    function Name(): string {
      match this
      case General => "General"
      case Benefits => "Benefits"
      case Healthcare => "Healthcare"
      case Education => "Education"
    }
  }

  /** The category spelled `name`, if there is one. */
  function CategoryNamed(name: string): (c: Option<Category>)
    ensures c.Some? ==> c.value.Name() == name
    ensures c.None? ==> forall k: Category :: k.Name() != name
  {
    if name == "General" then Some(General)
    else if name == "Benefits" then Some(Benefits)
    else if name == "Healthcare" then Some(Healthcare)
    else if name == "Education" then Some(Education)
    else None
  }

  /** The category a case gets: the requested one when it names one of the
      four, "General" otherwise and when none is requested. */
  function ResolveCategory(requested: Option<string>): (c: Category)
    ensures requested.Some? && (exists k: Category :: k.Name() == requested.value) ==> c.Name() == requested.value
    ensures requested.None? || (forall k: Category :: k.Name() != requested.value) ==> c == General
  {
    match CategoryNamed(requested.GetOr("General"))
    case Some(k) => k
    case None => General
  }

  /** Every category survives being spelled out and read back. */
  lemma ResolveCategoryRoundTrip(c: Category)
    ensures ResolveCategory(Some(c.Name())) == c
  {
  }

  /** What a caller submits (`WebCaseInput`). */
  datatype CaseInput = CaseInput(
    subject: string,
    message: string,
    email: string,
    phone: Option<string>,
    category: Option<string>,
    veteranId: Option<string>)

  /** A stored case (`CrmCase`). */
  datatype CrmCase = CrmCase(
    id: string,
    subject: string,
    description: string,
    email: string,
    phone: Option<string>,
    category: Category,
    status: CaseStatus,
    createdAt: string,
    veteranId: Option<string>)

  /** The four reasons `buildCrmCase` throws, in the order it checks them. */
  datatype ValidationError = SubjectRequired | SubjectTooLong | InvalidEmail | InvalidVeteranId {
    /** The message of the thrown `Error`. */
    function Message(): string {
      match this
      case SubjectRequired => "subject required"
      case SubjectTooLong => "subject too long (max 120)"
      case InvalidEmail => "invalid email"
      case InvalidVeteranId => "invalid veteranId"
    }

    /** Position in the order of the checks. */
    function Rank(): nat {
      match this
      case SubjectRequired => 0
      case SubjectTooLong => 1
      case InvalidEmail => 2
      case InvalidVeteranId => 3
    }
  }

  const MaxSubjectLength: nat := 120

  /** `/^\d{9}$/`. */
  predicate IsVeteranId(v: string) {
    |v| == 9 && AllDigits(v)
  }

  /** The veteran id rule: absent, empty (falsy, so not checked) or nine
      digits. */
  predicate VeteranIdAccepted(v: Option<string>) {
    match v
    case None => true
    case Some(id) => id == [] || IsVeteranId(id)
  }

  /** Whether the input breaks the given rule, judged on that rule alone. */
  predicate Violates(input: CaseInput, e: ValidationError) {
    match e
    case SubjectRequired => AllSpace(input.subject)
    case SubjectTooLong => |input.subject| > MaxSubjectLength
    case InvalidEmail => !IsEmail(input.email)
    case InvalidVeteranId => !VeteranIdAccepted(input.veteranId)
  }

  /** The four checks of `buildCrmCase`, in its order: the first rule the
      input breaks, or none. The subject test "trimmed subject is empty" is
      written as "subject is all white space", which `Trim` proves to be the
      same thing. */
  function Validate(input: CaseInput): (e: Option<ValidationError>)
    ensures e.None? <==> forall k :: !Violates(input, k)
    ensures e.Some? ==> Violates(input, e.value)
    ensures e.Some? ==> forall k :: Violates(input, k) ==> e.value.Rank() <= k.Rank()
  {
    if AllSpace(input.subject) then
      assert Violates(input, SubjectRequired);
      Some(SubjectRequired)
    else if |input.subject| > MaxSubjectLength then
      assert Violates(input, SubjectTooLong);
      Some(SubjectTooLong)
    else if !IsEmail(input.email) then
      assert Violates(input, InvalidEmail);
      Some(InvalidEmail)
    else if !VeteranIdAccepted(input.veteranId) then
      assert Violates(input, InvalidVeteranId);
      Some(InvalidVeteranId)
    else
      None
  }

  /** `buildCrmCase`; `randomPart` stands for the random suffix of the id
      and `createdAt` for the ISO form of the creation time. */
  function BuildCrmCase(input: CaseInput, randomPart: string, createdAt: string): (r: Result<CrmCase, ValidationError>)
    ensures r.Failure? <==> exists e :: Violates(input, e)
    ensures r.Failure? ==> Violates(input, r.error)
    ensures r.Failure? ==> forall e :: Violates(input, e) ==> r.error.Rank() <= e.Rank()
    ensures r.Success? ==>
      && r.value.subject == Trim(input.subject)
      && r.value.email == ToLower(input.email)
      && r.value.description == RedactPII(input.message)
      && r.value.phone == NormalizePhone(input.phone)
      && r.value.category == ResolveCategory(input.category)
      && r.value.status == New
      && r.value.veteranId == input.veteranId
      && r.value.createdAt == createdAt
      && r.value.id == "case_" + randomPart
  {
    match Validate(input)
    case Some(e) => Failure(e)
    case None =>
      Success(CrmCase(
        id := "case_" + randomPart,
        subject := Trim(input.subject),
        description := RedactPII(input.message),
        email := ToLower(input.email),
        phone := NormalizePhone(input.phone),
        category := ResolveCategory(input.category),
        status := New,
        createdAt := createdAt,
        veteranId := input.veteranId))
  }

  /** The properties every stored case has. */
  ghost predicate WellFormed(c: CrmCase) {
    && c.subject != [] && IsTrimmed(c.subject) && |c.subject| <= MaxSubjectLength
    && IsEmail(c.email) && HasNoUpper(c.email)
    && PIIFree(c.description)
    && c.status == New
    && VeteranIdAccepted(c.veteranId)
    && c.phone != Some([])
  }

  /** A case that `buildCrmCase` returns is well formed: its subject is
      trimmed, non-empty and at most 120 characters, its email is a valid
      lower-case address, its description has nothing left to redact, its
      status is "New" and a non-empty veteran id is nine digits. */
  lemma BuiltCaseIsWellFormed(input: CaseInput, randomPart: string, createdAt: string)
    requires BuildCrmCase(input, randomPart, createdAt).Success?
    ensures WellFormed(BuildCrmCase(input, randomPart, createdAt).value)
  {
    var c := BuildCrmCase(input, randomPart, createdAt).value;
    assert IsTrimOf(c.subject, input.subject);
    IsEmailToLower(input.email);
    ToLowerLowers(input.email);
    RedactPIIIsPIIFree(input.message);
    NormalizePhoneSpec(input.phone);
  }

  /** Every case of a store is well formed. */
  ghost predicate AllWellFormed(cs: seq<CrmCase>) {
    forall i :: 0 <= i < |cs| ==> WellFormed(cs[i])
  }

  /** Appending a well-formed case keeps a store well formed. */
  lemma AppendWellFormed(cs: seq<CrmCase>, c: CrmCase)
    requires AllWellFormed(cs) && WellFormed(c)
    ensures AllWellFormed(cs + [c])
  {
    assert forall i :: 0 <= i < |cs| ==> (cs + [c])[i] == cs[i];
  }
}
