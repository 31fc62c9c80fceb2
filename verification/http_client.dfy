/** The two pieces of `KimaiHttpClient` (KimaiBotService/HttpClient.cs) that
    hold logic of their own: reading the user id out of the login page in
    `Authentify`, and the time fields of the entry `AddEntryComboRnD` posts.
    The HTTP round trips themselves are inputs. */
module HttpClient {
  import opened Common
  import opened Text
  import opened Int32Text
  import opened TimeSpans

  /** The text searched for in the login page. */
  const UserIdMarker: string := "userID"

  /** The characters that end the user id value. */
  const ValueDelimiters: set<char> := {';', ' '}

  /** The most characters allowed between the value's start and its end. */
  const MaxValueLength: nat := 20

  /** What `Authentify` returns for every kind of failure. */
  const NoUserId: int32 := -1

  /** Why no user id could be read from a login page. */
  datatype ParseError =
    | MarkerMissing   // "userID" does not occur
    | EqualsMissing   // no '=' at or after it
    | StartPastEnd    // '=' is the last character: IndexOfAny throws
    | ValueTooLong    // more than MaxValueLength characters before the delimiter
    | NotAnInteger    // the trimmed value is not an int
    | SplitSurrogate  // the character after '=' is a surrogate pair, so the
                      // value starts at its second half, which no parse accepts

  /** Judges the value text found between the skipped characters and the
      delimiter: too long, or the `int.TryParse` of its trimmed form. */
  function ReadValue(span: string): (r: Result<int32, ParseError>)
    ensures r.Failure? ==> r.error == ValueTooLong || r.error == NotAnInteger
    ensures r.Failure? && |span| <= MaxValueLength ==> r.error == NotAnInteger
    ensures r.Success? <==> |span| <= MaxValueLength && ParseInt32(Trim(span)).Some?
    ensures r.Success? ==> Some(r.value) == ParseInt32(Trim(span))
  {
    if |span| > MaxValueLength then Failure(ValueTooLong)
    else match ParseInt32(Trim(span))
      case None => Failure(NotAnInteger)
      case Some(v) => Success(v)
  }

  /** The locating half of `Authentify`: finds the first "userID", the first
      '=' from there, skips that '=' and the character after it, and takes
      the text up to the first ';' or ' ' (or the end of the page). */
  function LocateValue(body: string): (r: Result<string, ParseError>)
    ensures r == Failure(MarkerMissing) <==> forall j :: !OccursAt(body, UserIdMarker, j)
    ensures r == Failure(StartPastEnd) ==> body != [] && body[|body| - 1] == '='
    ensures r.Failure? ==> r.error in {MarkerMissing, EqualsMissing, StartPastEnd, SplitSurrogate}
    ensures r.Success? ==> forall k :: 0 <= k < |r.value| ==> r.value[k] !in ValueDelimiters
  {
    match IndexOf(body, UserIdMarker, 0)
    case None => Failure(MarkerMissing)
    case Some(index) => SpanAfter(body, index)
  }

  /** From the "userID" at `index`: the first '=' at or after it, and the
      value two UTF-16 code units further on. That is the second character
      after the '=' unless the first is a surrogate pair, whose second half
      then begins the value. */
  function SpanAfter(body: string, index: nat): (r: Result<string, ParseError>)
    requires index <= |body|
    ensures r.Failure? ==> r.error in {EqualsMissing, StartPastEnd, SplitSurrogate}
    ensures r == Failure(StartPastEnd) ==> body != [] && body[|body| - 1] == '='
    ensures r.Success? ==> forall k :: 0 <= k < |r.value| ==> r.value[k] !in ValueDelimiters
  {
    match IndexOfAny(body, {'='}, index)
    case None => Failure(EqualsMissing)
    case Some(equals) =>
      if equals + 1 < |body| && IsAstral(body[equals + 1]) then Failure(SplitSurrogate)
      else SpanFrom(body, equals + 2)
  }

  /** The value starting at `start`; `IndexOfAny` throws when `start` is
      past the end. */
  function SpanFrom(body: string, start: nat): (r: Result<string, ParseError>)
    ensures r == Failure(StartPastEnd) <==> start > |body|
    ensures r.Failure? ==> r.error == StartPastEnd
    ensures r.Success? ==> r.value <= body[start..]
    ensures r.Success? ==> forall k :: 0 <= k < |r.value| ==> r.value[k] !in ValueDelimiters
    ensures r.Success? && start + |r.value| < |body| ==> body[start + |r.value|] in ValueDelimiters
  {
    if start > |body| then Failure(StartPastEnd)
    else
      var end := ValueEnd(body, start);
      assert forall k :: 0 <= k < end - start ==> body[start..end][k] == body[start + k];
      Success(body[start..end])
  }

  /** Where the value ends: the first ';' or ' ' from `start`, else the end
      of the page. */
  function ValueEnd(body: string, start: nat): (end: nat)
    requires start <= |body|
    ensures start <= end <= |body|
    ensures forall j :: start <= j < end ==> body[j] !in ValueDelimiters
    ensures end < |body| ==> body[end] in ValueDelimiters
  {
    match IndexOfAny(body, ValueDelimiters, start)
    case None => |body|
    case Some(e) => e
  }

  /** The parsing half of `Authentify`: the located value, judged. */
  function ExtractUserId(body: string): (r: Result<int32, ParseError>)
    ensures r == Failure(MarkerMissing) <==> forall j :: !OccursAt(body, UserIdMarker, j)
    ensures r == Failure(StartPastEnd) ==> body != [] && body[|body| - 1] == '='
  {
    match LocateValue(body)
    case Failure(e) => Failure(e)
    case Success(span) => ReadValue(span)
  }

  /** `Authentify`: `None` stands for a POST or a body read that threw.
      Every failure, thrown or parsed, collapses to `NoUserId`. */
  function Authentify(response: Option<string>): (id: int32)
    ensures response.None? ==> id == NoUserId
    ensures response.Some? && ExtractUserId(response.value).Failure? ==> id == NoUserId
    ensures id != NoUserId ==> response.Some? && ExtractUserId(response.value) == Success(id)
    ensures response.Some? && ExtractUserId(response.value).Success? ==> id == ExtractUserId(response.value).value
  {
    match response
    case None => NoUserId
    case Some(body) =>
      match ExtractUserId(body)
      case Success(v) => v
      case Failure(_) => NoUserId
  }

  /** `body` contains "userID" first at index `|pre|`. */
  predicate MarkerFirstAt(body: string, pre: string) {
    && OccursAt(body, UserIdMarker, |pre|)
    && forall j :: 0 <= j < |pre| ==> !OccursAt(body, UserIdMarker, j)
  }

  lemma FindsFirstMarker(body: string, pre: string)
    requires MarkerFirstAt(body, pre)
    ensures |pre| <= |body|
    ensures IndexOf(body, UserIdMarker, 0) == Some(|pre|)
  {
  }

  /** The step from the page to the first marker. */
  lemma AtMarker(body: string, index: nat)
    requires IndexOf(body, UserIdMarker, 0) == Some(index)
    ensures index <= |body|
    ensures LocateValue(body) == SpanAfter(body, index)
  {
  }

  /** The step from the marker to the value, once the '=' is found. */
  lemma AfterEquals(body: string, index: nat, equals: nat)
    requires index <= |body| && IndexOfAny(body, {'='}, index) == Some(equals)
    requires equals + 1 < |body| ==> !IsAstral(body[equals + 1])
    ensures SpanAfter(body, index) == SpanFrom(body, equals + 2)
  {
  }

  /** The step from the marker when a surrogate pair follows the '='. */
  lemma SplitAfterEquals(body: string, index: nat, equals: nat)
    requires index <= |body| && IndexOfAny(body, {'='}, index) == Some(equals)
    requires equals + 1 < |body| && IsAstral(body[equals + 1])
    ensures SpanAfter(body, index) == Failure(SplitSurrogate)
  {
  }

  /** The step from the located text to the judged value. */
  lemma Judged(body: string, r: Result<string, ParseError>)
    requires LocateValue(body) == r
    ensures r.Success? ==> ExtractUserId(body) == ReadValue(r.value)
    ensures r.Failure? ==> ExtractUserId(body) == Failure(r.error)
  {
  }

  lemma IndexOfAnyAt(s: string, chars: set<char>, from: nat, i: nat)
    requires from <= i < |s| && s[i] in chars
    requires forall j :: from <= j < i ==> s[j] !in chars
    ensures IndexOfAny(s, chars, from) == Some(i)
  {
  }

  /** With the first "userID" right after `pre`, the first '=' from there is
      the one right after `mid`. */
  lemma FirstEquals(body: string, pre: string, mid: string)
    requires pre + UserIdMarker + mid + "=" <= body
    requires '=' !in mid
    ensures IndexOfAny(body, {'='}, |pre|) == Some(|pre| + |UserIdMarker| + |mid|)
  {
    var equals := |pre| + |UserIdMarker| + |mid|;
    var head := pre + UserIdMarker + mid + "=";
    assert body[equals] == head[equals] == '=';
    forall j | |pre| <= j < equals
      ensures body[j] !in {'='}
    {
      assert body[j] == head[j];
      if j < |pre| + |UserIdMarker| {
        assert head[j] == UserIdMarker[j - |pre|];
      } else {
        assert head[j] == mid[j - |pre| - |UserIdMarker|];
      }
    }
    IndexOfAnyAt(body, {'='}, |pre|, equals);
  }

  /** Where the value is read from: with the first "userID" after `pre`,
      the first '=' after `mid`, then any one character, the value is the
      text up to the first ';' or ' ' or the end, whatever follows, and only
      the first "userID" counts (`mid` and `tail` may hold others). */
  lemma ValueSpan(body: string, pre: string, mid: string, skipped: char, value: string, tail: string)
    requires body == pre + UserIdMarker + mid + "=" + [skipped] + value + tail
    requires MarkerFirstAt(body, pre)
    requires '=' !in mid
    requires !IsAstral(skipped)
    requires forall k :: 0 <= k < |value| ==> value[k] !in ValueDelimiters
    requires tail == [] || tail[0] in ValueDelimiters
    ensures LocateValue(body) == Success(value)
    ensures ExtractUserId(body) == ReadValue(value)
  {
    assert body == pre + UserIdMarker + mid + "=" + [skipped] + (value + tail);
    Layout(body, pre, mid, skipped, value + tail);
    SpanChain(body, |pre|, |pre| + |UserIdMarker| + |mid|, value, tail);
  }

  /** Where the marker, the '=' and the skipped character of such a page
      are. */
  lemma Layout(body: string, pre: string, mid: string, skipped: char, rest: string)
    requires body == pre + UserIdMarker + mid + "=" + [skipped] + rest
    requires MarkerFirstAt(body, pre)
    requires '=' !in mid
    ensures IndexOf(body, UserIdMarker, 0) == Some(|pre|)
    ensures IndexOfAny(body, {'='}, |pre|) == Some(|pre| + |UserIdMarker| + |mid|)
    ensures body[|pre| + |UserIdMarker| + |mid| + 1] == skipped
    ensures body[|pre| + |UserIdMarker| + |mid| + 2..] == rest
  {
    SkipLayout(body, pre + UserIdMarker + mid + "=", skipped, rest);
    FindsFirstMarker(body, pre);
    FirstEquals(body, pre, mid);
  }

  lemma SkipLayout(body: string, head: string, skipped: char, rest: string)
    requires body == head + [skipped] + rest
    ensures head <= body
    ensures body[|head|] == skipped && body[|head| + 1..] == rest
  {
    assert body == head + ([skipped] + rest);
    After(body, head, skipped, rest);
  }

  lemma After(body: string, head: string, c: char, rest: string)
    requires body == head + ([c] + rest)
    ensures body[|head|] == c && body[|head| + 1..] == rest
  {
    assert body[|head|..] == [c] + rest;
  }

  /** The three stages chained: marker, '=', value. */
  lemma SpanChain(body: string, index: nat, equals: nat, value: string, tail: string)
    requires IndexOf(body, UserIdMarker, 0) == Some(index)
    requires index <= |body| && IndexOfAny(body, {'='}, index) == Some(equals)
    requires equals + 2 <= |body| && body[equals + 2..] == value + tail
    requires !IsAstral(body[equals + 1])
    requires forall k :: 0 <= k < |value| ==> value[k] !in ValueDelimiters
    requires tail == [] || tail[0] in ValueDelimiters
    ensures LocateValue(body) == Success(value)
    ensures ExtractUserId(body) == ReadValue(value)
  {
    AtMarker(body, index);
    AfterEquals(body, index, equals);
    SpanEnds(body, equals + 2, value, tail);
    Judged(body, Success(value));
  }

  /** From `start`, the value runs to the first delimiter or the end. */
  lemma SpanEnds(body: string, start: nat, value: string, tail: string)
    requires start <= |body| && body[start..] == value + tail
    requires forall k :: 0 <= k < |value| ==> value[k] !in ValueDelimiters
    requires tail == [] || tail[0] in ValueDelimiters
    ensures SpanFrom(body, start) == Success(value)
  {
    var end := start + |value|;
    assert forall j :: start <= j < end ==> body[j] == body[start..][j - start] == value[j - start];
    assert body[start..end] == body[start..][..|value|] == value;
    if tail != [] {
      assert body[end] == body[start..][|value|] == tail[0];
    }
    assert ValueEnd(body, start) == end;
  }

  /** A '=' as the page's last character: the value would start past the
      end, `IndexOfAny` throws, and the catch turns it into a failure. */
  lemma EqualsAtEnd(body: string, pre: string, mid: string)
    requires body == pre + UserIdMarker + mid + "="
    requires MarkerFirstAt(body, pre)
    requires '=' !in mid
    ensures ExtractUserId(body) == Failure(StartPastEnd)
    ensures Authentify(Some(body)) == NoUserId
  {
    var equals := |pre| + |UserIdMarker| + |mid|;
    FindsFirstMarker(body, pre);
    FirstEquals(body, pre, mid);
    AtMarker(body, |pre|);
    AfterEquals(body, |pre|, equals);
    Judged(body, Failure(StartPastEnd));
  }

  /** A character outside the Basic Multilingual Plane right after the
      '=': .NET skips only its first half, the value then starts with a lone
      low surrogate that `Trim` keeps and `int.TryParse` rejects, so the page
      yields no user id, whatever follows. */
  lemma SurrogatePairSplit(body: string, pre: string, mid: string, skipped: char, rest: string)
    requires body == pre + UserIdMarker + mid + "=" + [skipped] + rest
    requires MarkerFirstAt(body, pre)
    requires '=' !in mid
    requires IsAstral(skipped)
    ensures ExtractUserId(body) == Failure(SplitSurrogate)
    ensures Authentify(Some(body)) == NoUserId
  {
    Layout(body, pre, mid, skipped, rest);
    SplitChain(body, |pre|, |pre| + |UserIdMarker| + |mid|);
  }

  lemma SplitChain(body: string, index: nat, equals: nat)
    requires IndexOf(body, UserIdMarker, 0) == Some(index)
    requires index <= |body| && IndexOfAny(body, {'='}, index) == Some(equals)
    requires equals + 1 < |body| && IsAstral(body[equals + 1])
    ensures ExtractUserId(body) == Failure(SplitSurrogate)
  {
    AtMarker(body, index);
    SplitAfterEquals(body, index, equals);
    Judged(body, Failure(SplitSurrogate));
  }

  /** No '=' anywhere after the first "userID": a failure. */
  lemma NoEqualsAfterMarker(body: string, pre: string)
    requires MarkerFirstAt(body, pre)
    requires forall j :: |pre| <= j < |body| ==> body[j] != '='
    ensures ExtractUserId(body) == Failure(EqualsMissing)
  {
    FindsFirstMarker(body, pre);
    assert IndexOfAny(body, {'='}, |pre|) == None;
    AtMarker(body, |pre|);
    Judged(body, Failure(EqualsMissing));
  }

  /** A value longer than the cap fails even when it would parse. */
  lemma LongValueRejected(body: string, pre: string, mid: string, skipped: char, value: string, tail: string)
    requires body == pre + UserIdMarker + mid + "=" + [skipped] + value + tail
    requires MarkerFirstAt(body, pre)
    requires '=' !in mid
    requires forall k :: 0 <= k < |value| ==> value[k] !in ValueDelimiters
    requires tail == [] || tail[0] in ValueDelimiters
    requires |value| > MaxValueLength
    ensures Authentify(Some(body)) == NoUserId
  {
    if IsAstral(skipped) {
      SurrogatePairSplit(body, pre, mid, skipped, value + tail);
    } else {
      ValueSpan(body, pre, mid, skipped, value, tail);
    }
  }

  /** A page that shows `userID = <id>` in the usual way yields that id: the
      parse inverts `int.ToString()` for every 32-bit id. */
  lemma UserIdRoundTrip(body: string, pre: string, id: int32, tail: string)
    requires body == pre + UserIdMarker + " = " + FormatInt32(id) + tail
    requires MarkerFirstAt(body, pre)
    requires tail == [] || tail[0] in ValueDelimiters
    ensures ExtractUserId(body) == Success(id)
    ensures Authentify(Some(body)) == id
  {
    var value := FormatInt32(id);
    FormattedValueReads(id, value);
    CanonicalPage(body, pre, value, tail);
    Judged(body, Success(value));
  }

  /** `userID = ` and a delimiter-free value: the value is located. */
  lemma CanonicalPage(body: string, pre: string, value: string, tail: string)
    requires body == pre + UserIdMarker + " = " + value + tail
    requires MarkerFirstAt(body, pre)
    requires forall k :: 0 <= k < |value| ==> value[k] !in ValueDelimiters
    requires tail == [] || tail[0] in ValueDelimiters
    ensures LocateValue(body) == Success(value)
  {
    var head := pre + UserIdMarker;
    assert head + " = " == head + " " + "=" + [' '];
    ValueSpan(body, pre, " ", ' ', value, tail);
  }

  /** The rendering of an id, as a value span, reads back as that id. */
  lemma FormattedValueReads(id: int32, value: string)
    requires value == FormatInt32(id)
    ensures forall k :: 0 <= k < |value| ==> value[k] !in ValueDelimiters
    ensures ReadValue(value) == Success(id)
  {
    ParseFormatRoundTrip(id);
    NumberReads(value, id);
  }

  /** A number written with digits and an optional minus sign, short
      enough, reads as the value it parses to. */
  lemma NumberReads(value: string, id: int32)
    requires forall k :: 0 <= k < |value| ==> IsDigit(value[k]) || (k == 0 && value[k] == '-')
    requires |value| <= MaxValueLength && ParseInt32(value) == Some(id)
    ensures forall k :: 0 <= k < |value| ==> value[k] !in ValueDelimiters
    ensures ReadValue(value) == Success(id)
  {
    PlainNumber(value);
    ReadsAs(value, id);
  }

  lemma ReadsAs(span: string, v: int32)
    requires |span| <= MaxValueLength && Trim(span) == span && ParseInt32(span) == Some(v)
    ensures ReadValue(span) == Success(v)
  {
  }

  /** Text made of digits and a leading minus sign holds no delimiter and
      is left as it is by `Trim`. */
  lemma PlainNumber(value: string)
    requires forall k :: 0 <= k < |value| ==> IsDigit(value[k]) || (k == 0 && value[k] == '-')
    ensures forall k :: 0 <= k < |value| ==> value[k] !in ValueDelimiters
    ensures Trim(value) == value
  {
    forall k | 0 <= k < |value|
      ensures value[k] !in ValueDelimiters && !IsWhiteSpace(value[k])
    {
      NumberCharIsPlain(value[k]);
    }
  }

  /** Digits and the minus sign are neither white space nor delimiters. */
  lemma NumberCharIsPlain(c: char)
    requires IsDigit(c) || c == '-'
    ensures c !in ValueDelimiters && !IsWhiteSpace(c)
  {
  }

  /** The sentinel is ambiguous: a page whose user id really is -1 is read
      successfully, yet `Authentify` answers exactly as for a failure. */
  lemma MinusOneLooksLikeFailure()
    ensures ExtractUserId("userID = -1;") == Success(-1)
    ensures Authentify(Some("userID = -1;")) == NoUserId
  {
    assert FormatInt32(-1) == "-1";
    assert "userID = -1;" == [] + UserIdMarker + " = " + FormatInt32(-1) + ";";
    UserIdRoundTrip("userID = -1;", [], -1, ";");
  }

  /** The outcome of the POST in `AddEntryComboRnD`: a status code, or an
      exception (network failure), which its catch turns into `false`. */
  datatype PostResult = Status(code: int) | Threw

  /** `IsSuccessStatusCode`. */
  predicate IsSuccess(p: PostResult) {
    p.Status? && 200 <= p.code <= 299
  }

  /** The fields of the posted entry that depend on the arguments. */
  datatype EntryFields = EntryFields(userId: string, startTime: string, endTime: string, duration: string)

  /** The argument-dependent form fields `AddEntryComboRnD` builds, or `None`
      when `startTime + duration` overflows and throws before the POST. */
  function EntryFieldsFor(userId: int32, start: TimeSpan, duration: TimeSpan): (r: Option<EntryFields>)
    ensures r.None? <==> !(MinTicks <= start + duration <= MaxTicks)
    ensures r.Some? ==> ParseInt32(r.value.userId) == Some(userId)
    ensures r.Some? ==> r.value.userId == FormatInt32(userId)
    ensures r.Some? ==> IsHms(r.value.startTime) && HmsSeconds(r.value.startTime) == SecondOfDay(start)
    ensures r.Some? ==> IsHms(r.value.endTime) && HmsSeconds(r.value.endTime) == SecondOfDay(start + duration)
    ensures r.Some? ==> IsHms(r.value.duration) && HmsSeconds(r.value.duration) == SecondOfDay(duration)
  {
    match Add(start, duration)
    case None => None
    case Some(end) =>
      ParseFormatRoundTrip(userId);
      Some(EntryFields(FormatInt32(userId), FormatHms(start), FormatHms(end), FormatHms(duration)))
  }

  /** `AddEntryComboRnD`: the overflow of `startTime + duration` escapes
      (it is raised before the try); a POST that throws or answers with a
      non-2xx status gives `false`. */
  function AddEntryComboRnD(userId: int32, start: TimeSpan, duration: TimeSpan, post: PostResult): (r: Remote)
    ensures r.Raised? <==> EntryFieldsFor(userId, start, duration).None?
    ensures r == Returned(true) <==> EntryFieldsFor(userId, start, duration).Some? && IsSuccess(post)
  {
    match EntryFieldsFor(userId, start, duration)
    case None => Raised
    case Some(_) =>
      match post
      case Threw => Returned(false)
      case Status(code) => Returned(200 <= code <= 299)
  }
}
