/** The admin's check-in QR dialog (src/components/admin/EventQRCode.tsx): the QR code
    encodes the event's check-in URL, and the downloaded image is named after the event
    title with each run of whitespace turned into one '_'. The page origin and the QR
    encoder are parameters. */
module EventQRCode {
  import opened Wrappers
  import opened Text
  import Seqs

  /** `${window.location.origin}/events/${event.id}/checkin`. */
  function CheckInUrl(origin: string, eventId: string): (url: string)
    ensures StartsWith(url, origin + "/events/")
    ensures |url| == |origin| + |eventId| + 16 && url[|origin| + 8..|url| - 8] == eventId
  {
    var url := origin + "/events/" + eventId + "/checkin";
    assert url[|origin| + 8..] == eventId + "/checkin";
    url
  }

  /** Different events of the same site get different check-in URLs. */
  lemma CheckInUrlsDistinct(origin: string, a: string, b: string)
    requires a != b
    ensures CheckInUrl(origin, a) != CheckInUrl(origin, b)
  {
  }

  // ---------------------------------------------------------------------------
  // `replace(/\s+/g, '_')`, over any character class `ws` that does not hold of '_'

  predicate NoneIn(s: string, ws: char -> bool) {
    forall i :: 0 <= i < |s| ==> !ws(s[i])
  }

  predicate AllIn(s: string, ws: char -> bool) {
    forall i :: 0 <= i < |s| ==> ws(s[i])
  }

  /** The complement of the class, as a filter. */
  function Outside(ws: char -> bool): char -> bool {
    (c: char) => !ws(c)
  }

  /** The length of the leading run of class characters of `s`: what `C+` matches at
      the front of `s`. */
  function RunLength(s: string, ws: char -> bool): (n: nat)
    ensures n <= |s|
    ensures forall i :: 0 <= i < n ==> ws(s[i])
    ensures n == |s| || !ws(s[n])
  {
    if s != [] && ws(s[0]) then 1 + RunLength(s[1..], ws) else 0
  }

  /** `s.replace(/C+/g, '_')` for the class `ws`: each maximal run becomes one '_'. */
  function CollapseRuns(s: string, ws: char -> bool): (r: string)
    ensures |r| <= |s|
    decreases |s|
  {
    if s == [] then []
    else if ws(s[0]) then "_" + CollapseRuns(s[RunLength(s, ws)..], ws)
    else [s[0]] + CollapseRuns(s[1..], ws)
  }

  /** `${event.title.replace(/\s+/g, '_')}_QR.png`. */
  function DownloadName(title: string): (name: string)
    ensures NoneIn(name, IsWhitespace)
    ensures |name| >= 7 && name[..|name| - 7] == CollapseRuns(title, IsWhitespace)
  {
    CollapseRemovesRuns(title, IsWhitespace);
    var name := CollapseRuns(title, IsWhitespace) + "_QR.png";
    assert NoneIn("_QR.png", IsWhitespace);
    name
  }

  /** No class character survives the replacement. */
  lemma {:induction false} CollapseRemovesRuns(s: string, ws: char -> bool)
    requires !ws('_')
    ensures NoneIn(CollapseRuns(s, ws), ws)
    decreases |s|
  {
    if s != [] {
      var c := if ws(s[0]) then '_' else s[0];
      var rest := if ws(s[0]) then s[RunLength(s, ws)..] else s[1..];
      CollapseRemovesRuns(rest, ws);
      assert CollapseRuns(s, ws) == [c] + CollapseRuns(rest, ws);
    }
  }

  /** A text without class characters is left as it is. */
  lemma {:induction false} CollapseNoRuns(s: string, ws: char -> bool)
    requires NoneIn(s, ws)
    ensures CollapseRuns(s, ws) == s
  {
    if s != [] {
      CollapseNoRuns(s[1..], ws);
    }
  }

  /** Replacing once more changes nothing. */
  lemma CollapseIdempotent(s: string, ws: char -> bool)
    requires !ws('_')
    ensures CollapseRuns(CollapseRuns(s, ws), ws) == CollapseRuns(s, ws)
  {
    CollapseRemovesRuns(s, ws);
    CollapseNoRuns(CollapseRuns(s, ws), ws);
  }

  /** The leading run of a text that has a character outside the class ends inside it. */
  lemma {:induction false} RunLengthAppend(x: string, y: string, ws: char -> bool)
    requires exists i :: 0 <= i < |x| && !ws(x[i])
    ensures RunLength(x + y, ws) == RunLength(x, ws) < |x|
  {
    if ws(x[0]) {
      assert (x + y)[1..] == x[1..] + y;
      var i :| 0 <= i < |x| && !ws(x[i]);
      assert 0 <= i - 1 < |x[1..]| && !ws(x[1..][i - 1]);
      RunLengthAppend(x[1..], y, ws);
    }
  }

  /** A run followed by a non-class character (or the end) is matched entirely. */
  lemma {:induction false} RunLengthWhole(w: string, b: string, ws: char -> bool)
    requires AllIn(w, ws) && (b == [] || !ws(b[0]))
    ensures RunLength(w + b, ws) == |w|
  {
    if w != [] {
      assert (w + b)[1..] == w[1..] + b;
      RunLengthWhole(w[1..], b, ws);
    }
  }

  /** The step of `CollapseAroundRun` for a text `a` that starts with a class character:
      the run at its front ends inside `a`. */
  lemma AroundRunAfterClassChar(a: string, w: string, b: string, ws: char -> bool)
    requires a != [] && ws(a[0]) && !ws(a[|a| - 1])
    requires var t := a[RunLength(a, ws)..];
             CollapseRuns(t + (w + b), ws) == CollapseRuns(t, ws) + "_" + CollapseRuns(b, ws)
    ensures CollapseRuns(a + (w + b), ws) == CollapseRuns(a, ws) + "_" + CollapseRuns(b, ws)
  {
    RunLengthAppend(a, w + b, ws);
    var n := RunLength(a, ws);
    assert (a + (w + b))[n..] == a[n..] + (w + b);
    Regroup("_", CollapseRuns(a[n..], ws), "_", CollapseRuns(b, ws));
  }

  /** The step of `CollapseAroundRun` for a text `a` that starts outside the class. */
  lemma AroundRunAfterOther(a: string, w: string, b: string, ws: char -> bool)
    requires a != [] && !ws(a[0])
    requires CollapseRuns(a[1..] + (w + b), ws) == CollapseRuns(a[1..], ws) + "_" + CollapseRuns(b, ws)
    ensures CollapseRuns(a + (w + b), ws) == CollapseRuns(a, ws) + "_" + CollapseRuns(b, ws)
  {
    assert (a + (w + b))[1..] == a[1..] + (w + b);
    Regroup([a[0]], CollapseRuns(a[1..], ws), "_", CollapseRuns(b, ws));
  }

  /** Regrouping a concatenation of four pieces. */
  lemma Regroup<T>(x: seq<T>, y: seq<T>, z: seq<T>, u: seq<T>)
    ensures x + (y + z + u) == (x + y) + z + u
  {
  }

  /** The replacement works run by run: a maximal run `w` between `a` and `b` becomes one
      '_' between their replacements. Together with `CollapseNoRuns` this fixes the
      result for every title. */
  lemma {:induction false} CollapseAroundRun(a: string, w: string, b: string, ws: char -> bool)
    requires w != [] && AllIn(w, ws)
    requires a == [] || !ws(a[|a| - 1])
    requires b == [] || !ws(b[0])
    ensures CollapseRuns(a + (w + b), ws) == CollapseRuns(a, ws) + "_" + CollapseRuns(b, ws)
    decreases |a|
  {
    if a == [] {
      assert a + (w + b) == w + b;
      RunLengthWhole(w, b, ws);
      assert (w + b)[|w|..] == b;
    } else if ws(a[0]) {
      var n := RunLength(a, ws);
      assert n < |a| && a[n..][|a| - n - 1] == a[|a| - 1];
      CollapseAroundRun(a[n..], w, b, ws);
      AroundRunAfterClassChar(a, w, b, ws);
    } else {
      CollapseAroundRun(a[1..], w, b, ws);
      AroundRunAfterOther(a, w, b, ws);
    }
  }

  /** The characters outside the class all appear in the result, unchanged and in their
      order. */
  lemma {:induction false} CollapseKeepsText(s: string, ws: char -> bool)
    ensures Seqs.IsSubsequence(Seqs.Filter(s, Outside(ws)), CollapseRuns(s, ws))
    decreases |s|
  {
    if s != [] {
      var r := CollapseRuns(s, ws);
      if ws(s[0]) {
        var t := s[RunLength(s, ws)..];
        FilterSkipsRun(s, ws);
        CollapseKeepsText(t, ws);
        assert r[1..] == CollapseRuns(t, ws);
      } else {
        CollapseKeepsText(s[1..], ws);
        assert Seqs.Filter(s, Outside(ws))[1..] == Seqs.Filter(s[1..], Outside(ws));
        assert r[1..] == CollapseRuns(s[1..], ws);
      }
    }
  }

  /** A leading run contributes nothing to the characters outside the class. */
  lemma {:induction false} FilterSkipsRun(s: string, ws: char -> bool)
    ensures Seqs.Filter(s, Outside(ws)) == Seqs.Filter(s[RunLength(s, ws)..], Outside(ws))
  {
    if s != [] && ws(s[0]) {
      FilterSkipsRun(s[1..], ws);
      assert s[1..][RunLength(s[1..], ws)..] == s[RunLength(s, ws)..];
    }
  }

  /** The dialog's state: the generated image (a data URL, "" before any) and whether the
      dialog is open. */
  datatype Dialog = Dialog(qrCodeUrl: string, open: bool)

  const Initial: Dialog := Dialog("", false)

  /** A click on the "QR Code" button. The button is the dialog's trigger, so the
      click toggles `open` whatever `generateQRCode` does; `generateQRCode` then awaits
      the encoder's answer for the check-in URL (`None` when it throws): an image is
      stored and the dialog set open, a failure adds nothing to the toggle. */
  function Click(d: Dialog, origin: string, eventId: string, encode: string -> Option<string>): (r: Dialog)
    ensures encode(CheckInUrl(origin, eventId)).Some? ==>
              r == Dialog(encode(CheckInUrl(origin, eventId)).value, true)
    ensures encode(CheckInUrl(origin, eventId)).None? ==>
              r.qrCodeUrl == d.qrCodeUrl && r.open == !d.open
  {
    var toggled := d.(open := !d.open);
    match encode(CheckInUrl(origin, eventId))
    case Some(url) => Dialog(url, true)
    case None => toggled
  }

  /** `{qrCodeUrl && (<img/> <Download button/>)}`. */
  predicate ShowDownload(d: Dialog) {
    d.qrCodeUrl != ""
  }

  /** The download button appears only after an encoding succeeded with a non-empty image;
      a failed attempt leaves the button as it was. */
  lemma DownloadNeedsImage(d: Dialog, origin: string, eventId: string, encode: string -> Option<string>)
    ensures ShowDownload(Click(d, origin, eventId, encode)) <==>
              match encode(CheckInUrl(origin, eventId))
              case Some(url) => url != ""
              case None => ShowDownload(d)
    ensures !ShowDownload(Initial)
  {
  }

  /** A click on the closed dialog always opens it, even when the encoding fails: the
      first failed click shows an open dialog with neither image nor download button. */
  lemma ClickOpens(d: Dialog, origin: string, eventId: string, encode: string -> Option<string>)
    requires !d.open
    ensures Click(d, origin, eventId, encode).open
    ensures encode(CheckInUrl(origin, eventId)).None? ==>
              var r := Click(Initial, origin, eventId, encode);
              r.open && !ShowDownload(r)
  {
  }
}
