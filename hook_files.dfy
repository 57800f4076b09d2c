/**
 * Reading the optional hook files: `HOOK_FILE_MAP`, `readIfExists` and the
 * concurrent read of both files. The file system is a parameter: a function
 * from path to the outcome of reading that path as UTF-8 text.
 */
module HookFiles {
  import opened Wrappers
  import opened JsText
  import opened HookText

  /** The two hook fields that external files may override. */
  datatype HookField = PostUp | PostDown

  /** `IPTABLES_DIR`. */
  const HookDir := "/hooks"

  /** `HOOK_FILE_MAP`. */
  function FileName(field: HookField): string {
    match field
    case PostUp => "wg-post-up.txt"
    case PostDown => "wg-post-down.txt"
  }

  /** `join(IPTABLES_DIR, HOOK_FILE_MAP[field])`: the file each post hook is read from. */
  function HookPath(field: HookField): (p: string)
    ensures field == PostUp ==> p == "/hooks/wg-post-up.txt"
    ensures field == PostDown ==> p == "/hooks/wg-post-down.txt"
  {
    HookDir + "/" + FileName(field)
  }

  /** Each field has a file of its own, so the two fields are fed independently. */
  lemma HookPathsDistinct()
    ensures HookPath(PostUp) != HookPath(PostDown)
  {
    assert HookPath(PostUp)[15] != HookPath(PostDown)[15];
  }

  /** What reading a file yields: its text, or the error code (`e.code`) of the failure. */
  datatype ReadResult = Ok(raw: string) | Err(code: string)

  /** A hook file as the merge sees it; `Present("")` is not `Absent`. */
  datatype FileState = Absent | Present(text: string)

  /** The error codes that mean "there is no such file". */
  predicate IsMissing(code: string) {
    code == "ENOENT" || code == "ENOTDIR"
  }

  /** `readIfExists`: missing files become `Absent`, other errors propagate, text is normalized. */
  function ReadIfExists(r: ReadResult): (o: Result<FileState, string>)
    ensures o == Success(Absent) <==> r.Err? && IsMissing(r.code)
    ensures o.Failure? <==> r.Err? && !IsMissing(r.code)
    ensures o.Failure? ==> o.error == r.code
    ensures r.Ok? ==> o == Success(Present(Normalize(r.raw)))
  {
    match r
    case Ok(raw) => Success(Present(Normalize(raw)))
    case Err(code) => if IsMissing(code) then Success(Absent) else Failure(code)
  }

  /** A file that was read holds normalized text: one canonical line that reading again would not change. */
  lemma ReadTextIsNormal(r: ReadResult, t: string)
    requires ReadIfExists(r) == Success(Present(t))
    ensures Canonical(t) && '\n' !in t
    ensures t == [] || t[0] != '#'
    ensures Normalize(t) == t
  {
    NormalizeIdempotent(r.raw);
    CanonicalHasNoBreaks(t);
  }

  /**
   * `Promise.all([readIfExists(postUp path), readIfExists(postDown path)])`:
   * both states, or the error of a read that failed.
   */
  function ReadHookFiles(fs: string -> ReadResult): (r: Result<(FileState, FileState), string>)
    ensures r.Success? <==> ReadIfExists(fs(HookPath(PostUp))).Success? && ReadIfExists(fs(HookPath(PostDown))).Success?
    ensures r.Success? ==> r.value.0 == ReadIfExists(fs(HookPath(PostUp))).value
    ensures r.Success? ==> r.value.1 == ReadIfExists(fs(HookPath(PostDown))).value
    ensures r.Failure? ==> ReadIfExists(fs(HookPath(PostUp))) == Failure(r.error) || ReadIfExists(fs(HookPath(PostDown))) == Failure(r.error)
  {
    var up := ReadIfExists(fs(HookPath(PostUp)));
    var down := ReadIfExists(fs(HookPath(PostDown)));
    if up.Failure? then Failure(up.error)
    else if down.Failure? then Failure(down.error)
    else Success((up.value, down.value))
  }
}
