/**
 * `extractMeetingInfo` (catnotes/backend/zoom.js): the meeting number and the optional password
 * read out of a Zoom join link by two regular-expression matches.
 */
module Zoom {
  import opened Wrappers
  import opened Text

  /** `{meetingNumber, password}`; `password` is `None` for the `null` of a link without one. */
  datatype MeetingInfo = MeetingInfo(meetingNumber: string, password: Option<string>)

  const JoinMarker := "/j/"
  const PasswordMarker := "pwd="
  const InvalidLink := "Invalid Zoom meeting link"

  /** The class `[^&]`. */
  predicate NotAmpersand(c: char) {
    c != '&'
  }

  /**
   * `/\/j\/(\d+)/` gives the meeting number and `/pwd=([^&]+)/` the password; a link without a
   * meeting number throws.
   */
  function ExtractMeetingInfo(zoomLink: string): (r: Attempt<MeetingInfo>)
    ensures r.Threw? <==> forall k: nat :: !FollowedAt(zoomLink, JoinMarker, IsDigit, k)
    ensures r.Threw? ==> r.message == InvalidLink
    ensures r.Returned? ==>
      && (exists i: nat :: IsFirstCapture(zoomLink, JoinMarker, IsDigit, i, r.value.meetingNumber))
      && r.value.meetingNumber != [] && forall m :: 0 <= m < |r.value.meetingNumber| ==> IsDigit(r.value.meetingNumber[m])
    ensures r.Returned? ==>
      (r.value.password.None? <==> forall k: nat :: !FollowedAt(zoomLink, PasswordMarker, NotAmpersand, k))
    ensures r.Returned? && r.value.password.Some? ==>
      && (exists i: nat :: IsFirstCapture(zoomLink, PasswordMarker, NotAmpersand, i, r.value.password.value))
      && r.value.password.value != [] && '&' !in r.value.password.value
  {
    var meetingNumber := CaptureAfter(zoomLink, JoinMarker, IsDigit);
    var password := CaptureAfter(zoomLink, PasswordMarker, NotAmpersand);
    if meetingNumber.None? then Threw(InvalidLink)
    else
      assert password.Some? ==> '&' !in password.value by {
        if password.Some? {
          assert forall m :: 0 <= m < |password.value| ==> NotAmpersand(password.value[m]);
        }
      }
      Returned(MeetingInfo(meetingNumber.value, password))
  }

  /**
   * A join link `<host>/j/<number>?pwd=<password>`, possibly followed by more `&` parameters, yields
   * exactly that number and that password, provided the host holds no `j` and no `=` (so neither
   * marker starts before its place).
   */
  lemma {:induction false} JoinLinkInfo(host: string, number: string, password: string, more: string)
    requires 'j' !in host && '=' !in host
    requires number != [] && forall m :: 0 <= m < |number| ==> IsDigit(number[m])
    requires password != [] && '&' !in password
    requires more == [] || more[0] == '&'
    ensures ExtractMeetingInfo(host + JoinMarker + number + "?" + PasswordMarker + password + more)
         == Returned(MeetingInfo(number, Some(password)))
  {
    var link := host + JoinMarker + number + "?" + PasswordMarker + password + more;
    JoinMarkerFirst(host, number, password, more);
    PasswordMarkerFirst(host, number, password, more);
  }

  lemma {:induction false} JoinMarkerFirst(host: string, number: string, password: string, more: string)
    requires 'j' !in host
    requires number != [] && forall m :: 0 <= m < |number| ==> IsDigit(number[m])
    ensures CaptureAfter(host + JoinMarker + number + "?" + PasswordMarker + password + more, JoinMarker, IsDigit) == Some(number)
  {
    var link := host + JoinMarker + number + "?" + PasswordMarker + password + more;
    var start := |host| + |JoinMarker|;
    assert link[|host|..start] == JoinMarker;
    assert link[start..start + |number|] == number;
    assert link[start] == number[0];
    assert link[start + |number|] == '?';
    forall k: nat | k < |host|
      ensures !FollowedAt(link, JoinMarker, IsDigit, k)
    {
      if k + 1 < |host| {
        assert link[k + 1] == host[k + 1];
      }
      assert link[k + 1] != JoinMarker[1];
      assert k + |JoinMarker| < |link| ==> link[k..k + |JoinMarker|][1] == link[k + 1];
    }
    CaptureOfFirstMatch(link, JoinMarker, IsDigit, |host|, number);
  }

  lemma {:induction false} PasswordMarkerFirst(host: string, number: string, password: string, more: string)
    requires '=' !in host
    requires forall m :: 0 <= m < |number| ==> IsDigit(number[m])
    requires password != [] && '&' !in password
    requires more == [] || more[0] == '&'
    ensures CaptureAfter(host + JoinMarker + number + "?" + PasswordMarker + password + more, PasswordMarker, NotAmpersand)
         == Some(password)
  {
    var before := host + JoinMarker + number + "?";
    var link := before + PasswordMarker + password + more;
    assert link == host + JoinMarker + number + "?" + PasswordMarker + password + more;
    var start := |before| + |PasswordMarker|;
    assert link[|before|..start] == PasswordMarker;
    assert link[start..start + |password|] == password;
    assert link[start] == password[0];
    assert '=' !in before by {
      forall m | 0 <= m < |before| ensures before[m] != '=' {
        if |host| + |JoinMarker| <= m < |host| + |JoinMarker| + |number| {
          assert before[m] == number[m - |host| - |JoinMarker|];
        }
      }
    }
    forall k: nat | k < |before|
      ensures !FollowedAt(link, PasswordMarker, NotAmpersand, k)
    {
      if k + 3 < |before| {
        assert link[k + 3] == before[k + 3];
      }
      assert link[k + 3] != PasswordMarker[3];
      assert k + |PasswordMarker| < |link| ==> link[k..k + |PasswordMarker|][3] == link[k + 3];
    }
    forall m | 0 <= m < |password| ensures NotAmpersand(password[m]) {
      assert password[m] in password;
    }
    if more != [] {
      assert link[start + |password|] == '&';
    }
    CaptureOfFirstMatch(link, PasswordMarker, NotAmpersand, |before|, password);
  }

  /** The link of the repository's Zoom smoke test, written out in its parts, parses to its meeting number and password. */
  lemma {:induction false} SmokeTestLink()
    ensures ExtractMeetingInfo("https://us04web.zoom.us" + "/j/" + "75759622983" + "?" + "pwd=" + "Xa1A66VuTRl9jTPUuOyia16E28iKt4.1")
         == Returned(MeetingInfo("75759622983", Some("Xa1A66VuTRl9jTPUuOyia16E28iKt4.1")))
  {
    var host := "https://us04web.zoom.us";
    var number := "75759622983";
    var password := "Xa1A66VuTRl9jTPUuOyia16E28iKt4.1";
    assert forall m :: 0 <= m < |number| ==> IsDigit(number[m]);
    JoinLinkInfo(host, number, password, "");
    var link := host + JoinMarker + number + "?" + PasswordMarker + password;
    assert link + "" == link;
  }

  /** A link with a meeting number but no `pwd=` parameter still parses, with no password. */
  lemma {:induction false} NoPasswordStillParses(zoomLink: string)
    requires exists k: nat :: FollowedAt(zoomLink, JoinMarker, IsDigit, k)
    requires !Contains(zoomLink, PasswordMarker)
    ensures ExtractMeetingInfo(zoomLink).Returned?
    ensures ExtractMeetingInfo(zoomLink).value.password.None?
  {
    forall k: nat | FollowedAt(zoomLink, PasswordMarker, NotAmpersand, k)
      ensures false
    {
      assert OccursAt(zoomLink, PasswordMarker, k);
      ContainsIffOccurs(zoomLink, PasswordMarker);
    }
  }
}
