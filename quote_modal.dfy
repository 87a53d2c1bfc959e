/** The quote request dialog: the phone number field and the "Get Quote" handler,
    which keeps only the digits of the phone, insists on exactly ten of them, and
    then hands the quote request to its owner and closes. */
module QuoteModal {
  import opened Wrappers
  import opened CivilTime

  /** The `maxLength` of the phone text input. */
  const MaxPhoneLength := 10
  /** The number of digits a phone number must have. */
  const PhoneDigits := 10

  /** The characters `\d` matches in a regular expression without the `u` flag. */
  predicate IsAsciiDigit(c: char) {
    '0' <= c <= '9'
  }

  predicate AllDigits(s: string) {
    forall i :: 0 <= i < |s| ==> IsAsciiDigit(s[i])
  }

  /** `s.replace(/\D/g, "")`: `s` with every character that is not an ASCII
      digit removed. */
  function DigitsOnly(s: string): (r: string)
    ensures |r| <= |s|
    ensures AllDigits(r)
  {
    if s == [] then []
    else (if IsAsciiDigit(s[0]) then [s[0]] else []) + DigitsOnly(s[1..])
  }

  /** The filter works character by character, keeping the order: on a joined
      string it is the join of the filtered parts. */
  lemma {:induction false} DigitsOnlyAppend(a: string, b: string)
    ensures DigitsOnly(a + b) == DigitsOnly(a) + DigitsOnly(b)
  {
    if a == [] {
      assert a + b == b;
    } else {
      assert (a + b)[1..] == a[1..] + b;
      DigitsOnlyAppend(a[1..], b);
    }
  }

  /** Each character is kept exactly when it is a digit; with `DigitsOnlyAppend`
      this determines the filter on every string. */
  lemma DigitsOnlyChar(c: char)
    ensures DigitsOnly([c]) == if IsAsciiDigit(c) then [c] else []
  {
  }

  /** The filter keeps every occurrence of every digit and nothing else. */
  lemma {:induction false} DigitsOnlyCounts(s: string, c: char)
    ensures multiset(DigitsOnly(s))[c] == if IsAsciiDigit(c) then multiset(s)[c] else 0
  {
    if s != [] {
      DigitsOnlyCounts(s[1..], c);
      assert s == [s[0]] + s[1..];
    }
  }

  /** A string is left unchanged by the filter exactly when it is all digits. */
  lemma {:induction false} DigitsOnlyFixed(s: string)
    ensures DigitsOnly(s) == s <==> AllDigits(s)
  {
    if s != [] {
      DigitsOnlyFixed(s[1..]);
      if !IsAsciiDigit(s[0]) {
        assert |DigitsOnly(s)| < |s|;
      }
    }
  }

  /** Filtering twice is filtering once. */
  lemma DigitsOnlyIdempotent(s: string)
    ensures DigitsOnly(DigitsOnly(s)) == DigitsOnly(s)
  {
    DigitsOnlyFixed(DigitsOnly(s));
  }

  /** The filter removes nothing exactly when the string is all digits. */
  lemma {:induction false} DigitsOnlyFullLength(s: string)
    ensures |DigitsOnly(s)| == |s| <==> AllDigits(s)
  {
    if s != [] {
      DigitsOnlyFullLength(s[1..]);
    }
  }

  /** The props the dialog is opened with. */
  datatype QuoteProps = QuoteProps(
    pickup: string,
    dropoff: string,
    date: Option<Date>,
    time: Option<Instant>,
    name: Option<string>,
    email: Option<string>)

  /** What `onSubmit` receives. */
  datatype QuoteRequest = QuoteRequest(
    pickup: string,
    dropoff: string,
    date: Option<Date>,
    time: Option<Instant>,
    phone: string,
    name: Option<string>,
    email: Option<string>)

  /** The request `handleSubmit` would pass on for the typed `phone`, or `None`
      when the number is refused. Only the phone is checked: missing date or
      time and empty addresses go through as they are. */
  function Submission(props: QuoteProps, phone: string): (r: Option<QuoteRequest>)
    ensures r.Some? <==> |DigitsOnly(phone)| == PhoneDigits
    ensures r.Some? ==> && r.value.phone == DigitsOnly(phone)
                        && |r.value.phone| == PhoneDigits && AllDigits(r.value.phone)
                        && r.value.pickup == props.pickup && r.value.dropoff == props.dropoff
                        && r.value.date == props.date && r.value.time == props.time
                        && r.value.name == props.name && r.value.email == props.email
  {
    var digits := DigitsOnly(phone);
    if |digits| != PhoneDigits then None
    else Some(QuoteRequest(props.pickup, props.dropoff, props.date, props.time,
                           digits, props.name, props.email))
  }

  /** With the input's length limit in force, a number is accepted exactly when
      it is ten ASCII digits and nothing else: a separator takes the place of a
      digit. */
  lemma AcceptedIffTenDigits(props: QuoteProps, phone: string)
    requires |phone| <= MaxPhoneLength
    ensures Submission(props, phone).Some? <==> |phone| == PhoneDigits && AllDigits(phone)
  {
    DigitsOnlyFullLength(phone);
  }

  /** What the handler makes happen outside the component, in order. */
  datatype Effect =
    | InvalidPhoneAlert
    | Submitted(request: QuoteRequest)
    | SubmittedAlert(request: QuoteRequest)
    | PhoneCleared
    | Closed

  /** The dialog's state: its props, the phone text, and the effects produced so far. */
  class QuoteForm {
    const props: QuoteProps
    var phone: string
    var effects: seq<Effect>

    predicate Valid()
      reads this
    {
      |phone| <= MaxPhoneLength
    }

    /** `useState("")`: the field starts empty. */
    constructor (props: QuoteProps)
      ensures Valid() && this.props == props && phone == "" && effects == []
    {
      this.props := props;
      phone := "";
      effects := [];
    }

    /** `onChangeText={setPhone}`; the input never delivers more than
        `maxLength` characters. */
    method ChangeText(text: string)
      requires |text| <= MaxPhoneLength
      modifies this
      ensures Valid() && phone == text && effects == old(effects)
    {
      phone := text;
    }

    /** `handleSubmit`. A refused number only raises the alert and leaves the
        field as typed; an accepted one is passed to `onSubmit` once, echoed, the
        field is cleared and the dialog closes. */
    method HandleSubmit()
      requires Valid()
      modifies this
      ensures Valid()
      ensures Submission(props, old(phone)).None?
              ==> phone == old(phone) && effects == old(effects) + [InvalidPhoneAlert]
      ensures Submission(props, old(phone)).Some?
              ==> var request := Submission(props, old(phone)).value;
                  phone == "" && effects == old(effects) + [Submitted(request), SubmittedAlert(request), PhoneCleared, Closed]
    {
      var digitsOnly := DigitsOnly(phone);
      if |digitsOnly| != PhoneDigits {
        effects := effects + [InvalidPhoneAlert];
        return;
      }
      var data := QuoteRequest(props.pickup, props.dropoff, props.date, props.time,
                               digitsOnly, props.name, props.email);
      effects := effects + [Submitted(data)];
      effects := effects + [SubmittedAlert(data)];
      phone := "";
      effects := effects + [PhoneCleared];
      effects := effects + [Closed];
    }
  }
}
