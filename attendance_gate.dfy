/**
 * The decisions the web routes take on the attendance stored in the session:
 * `upload_attendance` stores what the parser returned, and `questionnaire`
 * and `write_review` admit a logged-in user only with a stored attendance of
 * at least 75. The session is reduced to the two facts these routes read:
 * whether an e-mail is logged in, and the stored attendance, if any.
 */
module AttendanceGate {
  import opened Wrappers
  import opened AttendanceParser

  /** The attendance threshold, in percent. */
  const Threshold: real := 75.0

  datatype Session = Session(loggedIn: bool, attendance: Option<real>)

  /** What the upload form delivered under the key "image": nothing at all,
      a part without a file name, or an image whose OCR text is `ocr`
      (`None` when the bytes cannot be decoded as an image). */
  datatype ImageField = Missing | Unnamed | Image(ocr: Option<string>)

  /** The page the upload route answers with. */
  datatype UploadOutcome =
    | ShowUploadForm            // a GET, or a POST whose file part has no name
    | BadRequest                // no "image" part in the POST
    | ServerError               // the image decoder failed; the exception is not caught
    | Verified(percent: real)   // "Attendance verified", redirect to the index
    | TooLow(percent: real)     // "Attendance too low", back to the upload page
    | CouldNotExtract           // the parser returned its failure sentinel

  /** `upload_attendance`: the outcome and the session afterwards. */
  function Upload(s: Session, isPost: bool, field: ImageField): (r: (UploadOutcome, Session))
    ensures r.1.loggedIn == s.loggedIn
    ensures !r.0.Verified? && !r.0.TooLow? ==> r.1 == s
    ensures r.0.Verified? ==> r.1.attendance == Some(r.0.percent) && r.0.percent >= Threshold
    ensures r.0.TooLow? ==> r.1.attendance == Some(r.0.percent) && r.0.percent < Threshold
  {
    if !isPost then (ShowUploadForm, s)
    else match field
      case Missing => (BadRequest, s)
      case Unnamed => (ShowUploadForm, s)
      case Image(None) => (ServerError, s)
      case Image(Some(text)) =>
        match Extract(text)
        case NotFound => (CouldNotExtract, s)
        case Percentage(p) =>
          var s' := s.(attendance := Some(p));
          if p >= Threshold then (Verified(p), s') else (TooLow(p), s')
  }

  /** The page the attendance gate of a form route answers with. */
  datatype GateOutcome =
    | ToLogin            // not logged in
    | ToUpload           // no attendance stored yet
    | BelowThreshold     // attendance stored but below 75, redirect to the index
    | ProfessorNotFound  // write_review only: no professor with that id
    | ShowForm           // the questionnaire or review form is rendered

  /** The checks `questionnaire` and `write_review` share, in their order. */
  function AttendanceCheck(s: Session): (r: GateOutcome)
    ensures r == ToLogin <==> !s.loggedIn
    ensures r == ToUpload <==> s.loggedIn && s.attendance.None?
    ensures r == BelowThreshold <==> s.loggedIn && s.attendance.Some? && s.attendance.value < Threshold
    ensures r == ShowForm <==> s.loggedIn && s.attendance.Some? && s.attendance.value >= Threshold
  {
    if !s.loggedIn then ToLogin
    else match s.attendance
      case None => ToUpload
      case Some(a) => if a < Threshold then BelowThreshold else ShowForm
  }

  /** `questionnaire`: the rating form is shown after the attendance check
      alone; the professor id is not looked up. */
  function Questionnaire(s: Session): (r: GateOutcome)
    ensures r != ProfessorNotFound
  {
    AttendanceCheck(s)
  }

  /** `write_review`: the attendance check, then the professor lookup. */
  function WriteReview(s: Session, professorExists: bool): (r: GateOutcome)
    ensures r == ShowForm <==> AttendanceCheck(s) == ShowForm && professorExists
    ensures r == ProfessorNotFound <==> AttendanceCheck(s) == ShowForm && !professorExists
    ensures AttendanceCheck(s) != ShowForm ==> r == AttendanceCheck(s)
  {
    var g := AttendanceCheck(s);
    if g == ShowForm && !professorExists then ProfessorNotFound else g
  }

  /** What `submit_rating` and `submit_review` check before writing: only
      that someone is logged in. */
  function SubmissionAccepted(s: Session): (ok: bool)
    ensures ok <==> AttendanceCheck(s) != ToLogin
  {
    s.loggedIn
  }

  /** Uploading a screenshot that parses to p stores p whatever its size,
      and the user is told "verified" exactly when p is at least 75; a text
      without the pattern, or an image that cannot be decoded, leaves the
      stored attendance as it was. */
  lemma UploadStores(s: Session, text: string)
    ensures var (out, s') := Upload(s, true, Image(Some(text)));
      match Extract(text)
      case Percentage(p) =>
        s'.attendance == Some(p) && (out == Verified(p) <==> p >= Threshold)
        && (out == TooLow(p) <==> p < Threshold)
      case NotFound => out == CouldNotExtract && s' == s
    ensures Upload(s, true, Image(None)) == (ServerError, s)
  {
  }

  /** The attendance an upload stores is what decides the gates afterwards:
      a logged-in user told "verified" is then shown the rating and review
      forms, and one told "too low" is turned away. */
  lemma {:induction false} UploadThenGate(s: Session, field: ImageField)
    requires s.loggedIn
    ensures var (out, s') := Upload(s, true, field);
      && (out.Verified? ==> Questionnaire(s') == ShowForm && WriteReview(s', true) == ShowForm)
      && (out.TooLow? ==> Questionnaire(s') == BelowThreshold && WriteReview(s', true) == BelowThreshold)
      && (!out.Verified? && !out.TooLow? ==> Questionnaire(s') == Questionnaire(s))
  {
    var (out, s') := Upload(s, true, field);
    if out.Verified? || out.TooLow? {
      assert field.Image? && field.ocr.Some?;
      var p := Extract(field.ocr.value).value;
      assert s'.attendance == Some(p);
    }
  }

  /** A later upload replaces the stored attendance: a verified user who
      uploads a screenshot reading below 75 loses access. */
  lemma ReuploadRevokes(s: Session, text1: string, text2: string)
    requires s.loggedIn
    requires Upload(s, true, Image(Some(text1))).0.Verified?
    requires Upload(Upload(s, true, Image(Some(text1))).1, true, Image(Some(text2))).0.TooLow?
    ensures Questionnaire(Upload(Upload(s, true, Image(Some(text1))).1, true, Image(Some(text2))).1)
         == BelowThreshold
  {
  }

  /** `login`: matching credentials put the e-mail into the session; the
      stored attendance, if any, is kept. Wrong credentials change nothing. */
  function Login(s: Session, credentialsMatch: bool): (s': Session)
    ensures s'.attendance == s.attendance
    ensures s'.loggedIn <==> s.loggedIn || credentialsMatch
  {
    if credentialsMatch then s.(loggedIn := true) else s
  }

  /** `logout`: both the e-mail and the attendance leave the session. */
  function Logout(s: Session): (s': Session)
    ensures !s'.loggedIn && s'.attendance.None?
  {
    Session(false, None)
  }

  /** `delete_account`: a logged-in POST removes the account and takes only
      the e-mail out of the session; the attendance stays. */
  function DeleteAccount(s: Session, isPost: bool): (s': Session)
    ensures s'.attendance == s.attendance
    ensures s'.loggedIn <==> s.loggedIn && !isPost
  {
    if s.loggedIn && isPost then s.(loggedIn := false) else s
  }

  /** After a logout the gates send the browser to the login page, and after
      the next login to the upload page: the attendance has to be shown again. */
  lemma LogoutForgetsAttendance(s: Session)
    ensures Questionnaire(Logout(s)) == ToLogin
    ensures Questionnaire(Login(Logout(s), true)) == ToUpload
  {
  }

  /** Deleting an account does not clear the attendance, so whoever logs in
      next in the same session gets the deleted user's answer from the gates. */
  lemma DeleteKeepsAttendance(s: Session)
    requires s.loggedIn
    ensures Questionnaire(DeleteAccount(s, true)) == ToLogin
    ensures Questionnaire(Login(DeleteAccount(s, true), true)) == Questionnaire(s)
  {
  }

  /** An attendance uploaded before logging in is kept by the login and
      decides the gates afterwards. */
  lemma UploadBeforeLogin(text: string, p: real)
    requires Extract(text) == Percentage(p)
    ensures var s := Upload(Session(false, None), true, Image(Some(text))).1;
      Questionnaire(Login(s, true)) == (if p >= Threshold then ShowForm else BelowThreshold)
  {
  }

  /** The submission routes do not repeat the attendance check: a logged-in
      user who never uploaded a screenshot is refused the forms but has a
      rating or a review posted directly accepted. */
  lemma SubmissionSkipsAttendance()
    ensures var s := Session(true, None);
      Questionnaire(s) == ToUpload && WriteReview(s, true) == ToUpload && SubmissionAccepted(s)
  {
  }
}
