/**
 * The post form's logic: its draft and per-field errors, trimming, validation,
 * input changes, initialisation from the post being edited, closing, and the
 * request that a valid submit sends to the posts store.
 */
module PostForm {
  import opened Wrappers
  import opened Posts
  import opened JsStrings
  import PostsSlice

  /** The form's fields, the keys of `formData` and of `formErrors`. */
  datatype Field = Title | Body | UserId

  /** `formData`: the draft being edited. */
  datatype FormData = FormData(title: string, body: string, userId: int)

  /** `formErrors`: an object from field names to messages; a key may hold `''`. */
  type FormErrors = map<Field, string>

  /** The form component's state. */
  datatype FormState = FormState(data: FormData, errors: FormErrors)

  /** The blank draft of create mode. */
  const BlankForm := FormData("", "", 1)

  const TitleRequired := "Title is required"
  const TitleTooShort := "Title must be at least 3 characters"
  const BodyRequired := "Body is required"
  const BodyTooShort := "Body must be at least 10 characters"

  // ---------------------------------------------------------------------------
  // Trimming

  /** The characters `String.prototype.trim` removes: white space and line terminators. */
  predicate IsWhitespace(c: char)
  {
    var n := c as int;
    n == 0x09 || n == 0x0A || n == 0x0B || n == 0x0C || n == 0x0D || n == 0x20 || n == 0xA0 ||
    n == 0x1680 || (0x2000 <= n <= 0x200A) || n == 0x2028 || n == 0x2029 || n == 0x202F ||
    n == 0x205F || n == 0x3000 || n == 0xFEFF
  }

  /** `s` without its leading white space. */
  function TrimStart(s: string): (r: string)
    ensures |r| <= |s| && r == s[|s| - |r|..]
    ensures forall i :: 0 <= i < |s| - |r| ==> IsWhitespace(s[i])
    ensures r == [] || !IsWhitespace(r[0])
  {
    if s != [] && IsWhitespace(s[0]) then TrimStart(s[1..]) else s
  }

  /** `s` without its trailing white space. */
  function TrimEnd(s: string): (r: string)
    ensures |r| <= |s| && r == s[..|r|]
    ensures forall i :: |r| <= i < |s| ==> IsWhitespace(s[i])
    ensures r == [] || !IsWhitespace(r[|r| - 1])
  {
    if s != [] && IsWhitespace(s[|s| - 1]) then TrimEnd(s[..|s| - 1]) else s
  }

  /**
   * `r` is the slice of `s` starting at `a`, and everything of `s` before and
   * after that slice is white space.
   */
  predicate TrimmedFrom(s: string, r: string, a: int)
  {
    0 <= a && a + |r| <= |s| && r == s[a..a + |r|] &&
    (forall i :: 0 <= i < a ==> IsWhitespace(s[i])) &&
    (forall i :: a + |r| <= i < |s| ==> IsWhitespace(s[i]))
  }

  /**
   * `trim()`: `s` with its leading and trailing white space removed. The
   * result starts and ends with a non-white-space character, and is empty
   * exactly when `s` is all white space. Every white-space character lies in
   * the Basic Multilingual Plane, so trimming characters and trimming UTF-16
   * code units agree.
   */
  function Trim(s: string): (r: string)
    ensures |r| <= |s|
    ensures exists a :: TrimmedFrom(s, r, a)
    ensures r == [] || (!IsWhitespace(r[0]) && !IsWhitespace(r[|r| - 1]))
    ensures r == [] <==> forall i :: 0 <= i < |s| ==> IsWhitespace(s[i])
  {
    var t := TrimStart(s);
    var r := TrimEnd(t);
    TrimmedBetween(s, t, r);
    r
  }

  /**
   * Cutting white space off the start of `s` to get `t`, then off the end of
   * `t` to get `r`, leaves `r` as the slice of `s` between the two cuts; it
   * begins and ends with a non-white-space character, and is empty exactly
   * when `s` is all white space.
   */
  lemma TrimmedBetween(s: string, t: string, r: string)
    requires |t| <= |s| && t == s[|s| - |t|..]
    requires forall i :: 0 <= i < |s| - |t| ==> IsWhitespace(s[i])
    requires t == [] || !IsWhitespace(t[0])
    requires |r| <= |t| && r == t[..|r|]
    requires forall i :: |r| <= i < |t| ==> IsWhitespace(t[i])
    requires r == [] || !IsWhitespace(r[|r| - 1])
    ensures TrimmedFrom(s, r, |s| - |t|)
    ensures r == [] || (!IsWhitespace(r[0]) && !IsWhitespace(r[|r| - 1]))
    ensures r == [] <==> forall i :: 0 <= i < |s| ==> IsWhitespace(s[i])
  {
    var a := |s| - |t|;
    forall i | a + |r| <= i < |s| ensures IsWhitespace(s[i]) {
      assert s[i] == t[i - a];
    }
    if r != [] {
      assert r[0] == t[0] == s[a];
    }
  }

  /** Trimming a trimmed string changes nothing. */
  lemma TrimIdempotent(s: string)
    ensures Trim(Trim(s)) == Trim(s)
  {
    var r := Trim(s);
    assert TrimStart(r) == r;
    assert TrimEnd(r) == r;
  }

  // ---------------------------------------------------------------------------
  // Validation and submission

  /**
   * `validateForm`: builds the errors field by field and reports whether none
   * was found. The form is valid exactly when the trimmed title has at least 3
   * code units (`.length`) and the trimmed body at least 10.
   */
  method ValidateForm(data: FormData) returns (errors: FormErrors, valid: bool)
    ensures valid <==> JsLength(Trim(data.title)) >= 3 && JsLength(Trim(data.body)) >= 10
    ensures valid <==> errors == map[]
    ensures errors.Keys <= {Title, Body}
    ensures Title in errors <==> JsLength(Trim(data.title)) < 3
    ensures Title in errors ==> errors[Title] == if Trim(data.title) == "" then TitleRequired else TitleTooShort
    ensures Body in errors <==> JsLength(Trim(data.body)) < 10
    ensures Body in errors ==> errors[Body] == if Trim(data.body) == "" then BodyRequired else BodyTooShort
  {
    errors := map[];
    var title := Trim(data.title);
    if title == "" {
      errors := errors[Title := TitleRequired];
    } else if JsLength(title) < 3 {
      errors := errors[Title := TitleTooShort];
    }
    var body := Trim(data.body);
    if body == "" {
      errors := errors[Body := BodyRequired];
    } else if JsLength(body) < 10 {
      errors := errors[Body := BodyTooShort];
    }
    valid := |errors| == 0;
    assert Title in errors || Body in errors ==> !valid;
  }

  /**
   * Validation counts `.length` in code units: a title of two characters
   * outside the Basic Multilingual Plane is 4 long and passes the 3 minimum.
   */
  lemma AstralTitleLongEnough(c1: char, c2: char)
    requires !IsBmp(c1) && !IsBmp(c2)
    ensures Trim([c1, c2]) == [c1, c2]
    ensures JsLength(Trim([c1, c2])) == 4
  {
    assert !IsWhitespace(c1) && !IsWhitespace(c2);
    assert TrimStart([c1, c2]) == [c1, c2];
    assert TrimEnd([c1, c2]) == [c1, c2];
    AstralLength(c1, c2);
  }

  /** `postData` in `handleSubmit`: the trimmed title and body, and the user id as it is. */
  function Draft(data: FormData): (d: PostData)
    ensures d.userId == data.userId
    ensures d.title == Trim(data.title) && d.body == Trim(data.body)
  {
    PostData(Trim(data.title), Trim(data.body), data.userId)
  }

  /**
   * The draft of a valid form is valid in its own right and already trimmed:
   * validating it again gives the same verdict.
   */
  lemma DraftOfValidForm(data: FormData)
    requires JsLength(Trim(data.title)) >= 3 && JsLength(Trim(data.body)) >= 10
    ensures var d := Draft(data);
      Trim(d.title) == d.title && Trim(d.body) == d.body &&
      JsLength(Trim(d.title)) >= 3 && JsLength(Trim(d.body)) >= 10
  {
    TrimIdempotent(data.title);
    TrimIdempotent(data.body);
  }

  /** What a submit dispatches: `addPost(postData)` or `editPost({id, postData})`. */
  datatype Request = AddRequest(postData: PostData) | EditRequest(id: int, postData: PostData)

  /**
   * `handleSubmit`, up to the dispatch: an invalid form records its errors and
   * sends nothing; a valid one sends the draft, as an edit of `post` in edit
   * mode and as a create otherwise.
   */
  method HandleSubmit(data: FormData, post: Option<Post>) returns (errors: FormErrors, request: Option<Request>)
    ensures request.Some? <==> JsLength(Trim(data.title)) >= 3 && JsLength(Trim(data.body)) >= 10
    ensures request.Some? <==> errors == map[]
    ensures errors.Keys <= {Title, Body}
    ensures Title in errors <==> JsLength(Trim(data.title)) < 3
    ensures Title in errors ==> errors[Title] == if Trim(data.title) == "" then TitleRequired else TitleTooShort
    ensures Body in errors <==> JsLength(Trim(data.body)) < 10
    ensures Body in errors ==> errors[Body] == if Trim(data.body) == "" then BodyRequired else BodyTooShort
    ensures request.Some? && post.Some? ==> request == Some(EditRequest(post.value.id, Draft(data)))
    ensures request.Some? && post.None? ==> request == Some(AddRequest(Draft(data)))
  {
    var valid;
    errors, valid := ValidateForm(data);
    if !valid {
      return errors, None;
    }
    var postData := Draft(data);
    if post.Some? {
      request := Some(EditRequest(post.value.id, postData));
    } else {
      request := Some(AddRequest(postData));
    }
  }

  // ---------------------------------------------------------------------------
  // Editing the fields

  /** The value an input hands to `handleInputChange`, tagged with its field. */
  datatype Input = TitleInput(title: string) | BodyInput(body: string) | UserIdInput(userId: int)

  function FieldOf(input: Input): Field
  {
    match input
    case TitleInput(_) => Title
    case BodyInput(_) => Body
    case UserIdInput(_) => UserId
  }

  /**
   * `handleInputChange`: only the named field of the draft takes the new value,
   * and that field's error, if it was a non-empty message, becomes `''`.
   */
  function InputChange(s: FormState, input: Input): (r: FormState)
    ensures input.TitleInput? ==> r.data == s.data.(title := input.title)
    ensures input.BodyInput? ==> r.data == s.data.(body := input.body)
    ensures input.UserIdInput? ==> r.data == s.data.(userId := input.userId)
    ensures r.errors.Keys == s.errors.Keys
    ensures FieldOf(input) in r.errors ==> r.errors[FieldOf(input)] == ""
    ensures forall f :: f in s.errors && f != FieldOf(input) ==> r.errors[f] == s.errors[f]
  {
    var data := match input
      case TitleInput(t) => s.data.(title := t)
      case BodyInput(b) => s.data.(body := b)
      case UserIdInput(u) => s.data.(userId := u);
    var field := FieldOf(input);
    var errors := if field in s.errors && s.errors[field] != "" then s.errors[field := ""] else s.errors;
    FormState(data, errors)
  }

  /**
   * The user id input's value: `parseInt(...) || 1`. `None` stands for a parse
   * that gives `NaN`; both it and `0` become 1.
   */
  function UserIdFromInput(parsed: Option<int>): (u: int)
    ensures u != 0
    ensures parsed.Some? && parsed.value != 0 ==> u == parsed.value
    ensures parsed.None? || parsed.value == 0 ==> u == 1
  {
    match parsed
    case Some(n) => if n != 0 then n else 1
    case None => 1
  }

  // ---------------------------------------------------------------------------
  // Mode, initialisation and closing

  /** `isEditMode`: a post was passed in. */
  predicate IsEditMode(post: Option<Post>)
  {
    post.Some?
  }

  /** `isLoading`: the store's `update` flag in edit mode, its `create` flag otherwise. */
  function IsLoading(post: Option<Post>, ops: PostsSlice.OperationLoading): (b: bool)
    ensures IsEditMode(post) ==> b == ops.Get(PostsSlice.Update)
    ensures !IsEditMode(post) ==> b == ops.Get(PostsSlice.Create)
  {
    if IsEditMode(post) then ops.update else ops.create
  }

  /**
   * The effect run when `post` changes: the draft copies the post's title and
   * body and its user id (0 becomes 1), or is blank with user 1 when there is
   * no post; the errors are cleared either way.
   */
  function InitForm(post: Option<Post>): (r: FormState)
    ensures r.errors == map[]
    ensures r.data.userId != 0
    ensures post.None? ==> r.data == BlankForm
    ensures post.Some? ==> r.data.title == post.value.title && r.data.body == post.value.body
    ensures post.Some? && post.value.userId != 0 ==> r.data.userId == post.value.userId
    ensures post.Some? && post.value.userId == 0 ==> r.data.userId == 1
  {
    match post
    case None => FormState(BlankForm, map[])
    case Some(p) => FormState(FormData(p.title, p.body, if p.userId != 0 then p.userId else 1), map[])
  }

  /**
   * `handleClose`: while the store is busy nothing happens; otherwise the form
   * is reset to the blank create-mode draft, errors cleared, and hidden.
   */
  function HandleClose(s: FormState, isLoading: bool): (r: (FormState, bool))
    ensures isLoading ==> r == (s, false)
    ensures !isLoading ==> r == (InitForm(None), true)
  {
    if isLoading then (s, false) else (FormState(BlankForm, map[]), true)
  }

  /** Editing a post pre-fills a form that, submitted unchanged, edits that same post. */
  method EditUnchanged(p: Post) returns (request: Option<Request>)
    requires JsLength(Trim(p.title)) >= 3 && JsLength(Trim(p.body)) >= 10
    ensures request.Some? && request.value.EditRequest? && request.value.id == p.id
    ensures request.value.postData.title == Trim(p.title) && request.value.postData.body == Trim(p.body)
  {
    var s := InitForm(Some(p));
    var errors;
    errors, request := HandleSubmit(s.data, Some(p));
  }
}
