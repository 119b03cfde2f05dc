/**
 * The family note board ("Bacheca"): a list of post-its held in component
 * state. Every operation builds new values: `addPostIt` appends, `deletePostIt`
 * filters. The clock (`Date.now()`, `new Date()`) and `Math.random()` are
 * parameters.
 */
module BachecaFamiglia {
  import opened Wrappers
  import opened JsText

  /** The six post-it colours (Tailwind classes). */
  const Colors: seq<string> :=
    ["bg-yellow-300", "bg-pink-300", "bg-blue-300", "bg-green-300", "bg-orange-300", "bg-purple-300"]

  const FamilyMembers: seq<string> := ["Matteo", "Bea", "Giuseppe", "Michela"]

  /** A note; `timestamp` is its creation time in milliseconds. */
  datatype PostIt = PostIt(id: string, message: string, author: string, color: string, timestamp: int)

  /** The component state: the notes, the draft, the chosen author, whether the form is open. */
  datatype Board = Board(postits: seq<PostIt>, newMessage: string, selectedAuthor: string, showForm: bool)

  /** The initial `useState` values: no notes, an empty draft, the first family member, the form closed. */
  function InitialBoard(): (b: Board)
    ensures b.postits == [] && b.newMessage == "" && !b.showForm
    ensures b.selectedAuthor == FamilyMembers[0]
  {
    Board([], "", FamilyMembers[0], false)
  }

  /** A browser notification. */
  datatype Notification = Notification(title: string, body: string)

  /** `colors[Math.floor(Math.random() * colors.length)]`, for `random` in [0, 1). */
  function PickColor(random: real): (c: string)
    requires 0.0 <= random < 1.0
    ensures c in Colors
  {
    var i := (random * |Colors| as real).Floor;
    assert 0 <= i < |Colors|;
    Colors[i]
  }

  /**
   * `addPostIt`: a draft that is blank once trimmed changes nothing. Otherwise
   * the draft, untrimmed, is appended as a note by the selected author, with
   * id `Date.now().toString()` (`clock`), timestamp `stamp` and a colour drawn
   * with `random`; the draft is emptied and the form closed.
   */
  function AddPostIt(b: Board, clock: nat, stamp: int, random: real): (r: Board)
    requires 0.0 <= random < 1.0
    ensures IsBlank(b.newMessage) ==> r == b
    ensures !IsBlank(b.newMessage) ==>
      |r.postits| == |b.postits| + 1 && r.postits[..|b.postits|] == b.postits
    ensures !IsBlank(b.newMessage) ==>
      var p := r.postits[|b.postits|];
      p.id == Decimal(clock) && p.message == b.newMessage && p.author == b.selectedAuthor &&
      p.color in Colors && p.timestamp == stamp
    ensures !IsBlank(b.newMessage) ==>
      r.newMessage == "" && !r.showForm && r.selectedAuthor == b.selectedAuthor
  {
    if IsBlank(b.newMessage) then b
    else
      var note := PostIt(Decimal(clock), b.newMessage, b.selectedAuthor, PickColor(random), stamp);
      b.(postits := b.postits + [note], newMessage := "", showForm := false)
  }

  /** `newMessage.substring(0, 50) + (newMessage.length > 50 ? '...' : '')` */
  function NotificationBody(message: string): (r: string)
    ensures |r| <= 53
    ensures |message| <= 50 ==> r == message
    ensures |message| > 50 ==> |r| == 53 && r[..50] == message[..50] && r[50..] == "..."
  {
    message[..if |message| < 50 then |message| else 50] + (if |message| > 50 then "..." else "")
  }

  /**
   * The notification `addPostIt` shows when the browser has granted
   * permission (`granted`): none for a blank draft.
   */
  function AddNotification(b: Board, granted: bool): (n: Option<Notification>)
    ensures n.Some? <==> granted && !IsBlank(b.newMessage)
    ensures n.Some? ==> n.value.title == "Nuovo messaggio da " + b.selectedAuthor
    ensures n.Some? ==> n.value.body == NotificationBody(b.newMessage) && |n.value.body| <= 53
  {
    if IsBlank(b.newMessage) || !granted then None
    else Some(Notification("Nuovo messaggio da " + b.selectedAuthor, NotificationBody(b.newMessage)))
  }

  /** `postits.filter(p => p.id !== id)` */
  function WithoutId(postits: seq<PostIt>, id: string): (r: seq<PostIt>)
    ensures |r| <= |postits|
    ensures forall i :: 0 <= i < |r| ==> r[i].id != id
  {
    if postits == [] then []
    else (if postits[0].id != id then [postits[0]] else []) + WithoutId(postits[1..], id)
  }

  /** Filtering drops every note with that id and keeps every other note as often as it occurs. */
  lemma {:induction false} WithoutIdCounts(postits: seq<PostIt>, id: string)
    ensures forall p :: (multiset(WithoutId(postits, id))[p] ==
      if p.id == id then 0 else multiset(postits)[p])
  {
    if postits != [] {
      assert postits == [postits[0]] + postits[1..];
      WithoutIdCounts(postits[1..], id);
    }
  }

  /** `deletePostIt(id)`: only the note list changes, and no note with that id is left. */
  function DeletePostIt(b: Board, id: string): (r: Board)
    ensures r.newMessage == b.newMessage && r.selectedAuthor == b.selectedAuthor && r.showForm == b.showForm
    ensures |r.postits| <= |b.postits|
    ensures forall i :: 0 <= i < |r.postits| ==> r.postits[i].id != id
    ensures r.postits == WithoutId(b.postits, id)
  {
    b.(postits := WithoutId(b.postits, id))
  }

  /** Filtering keeps relative order: it distributes over concatenation. */
  lemma {:induction false} WithoutIdConcat(a: seq<PostIt>, c: seq<PostIt>, id: string)
    ensures WithoutId(a + c, id) == WithoutId(a, id) + WithoutId(c, id)
  {
    if a == [] {
      assert a + c == c;
    } else {
      var head := if a[0].id != id then [a[0]] else [];
      assert (a + c)[0] == a[0] && (a + c)[1..] == a[1..] + c;
      assert WithoutId(a + c, id) == head + WithoutId(a[1..] + c, id);
      WithoutIdConcat(a[1..], c, id);
      assert WithoutId(a, id) == head + WithoutId(a[1..], id);
    }
  }

  /** Deleting an id no note carries leaves the list as it is. */
  lemma {:induction false} WithoutAbsentId(postits: seq<PostIt>, id: string)
    requires forall i :: 0 <= i < |postits| ==> postits[i].id != id
    ensures WithoutId(postits, id) == postits
  {
    if postits != [] {
      WithoutAbsentId(postits[1..], id);
    }
  }

  /**
   * Deleting the note just added restores the earlier notes, provided no
   * earlier note had the same clock-derived id.
   */
  lemma AddThenDelete(b: Board, clock: nat, stamp: int, random: real)
    requires 0.0 <= random < 1.0 && !IsBlank(b.newMessage)
    requires forall i :: 0 <= i < |b.postits| ==> b.postits[i].id != Decimal(clock)
    ensures DeletePostIt(AddPostIt(b, clock, stamp, random), Decimal(clock)).postits == b.postits
  {
    var r := AddPostIt(b, clock, stamp, random);
    var note := r.postits[|b.postits|];
    assert r.postits == b.postits + [note];
    WithoutIdConcat(b.postits, [note], Decimal(clock));
    WithoutAbsentId(b.postits, Decimal(clock));
  }

  const MsPerHour: nat := 1000 * 60 * 60

  /**
   * `formatTime` with both instants as integer milliseconds; `localeDate`
   * stands for `toLocaleDateString('it-IT')`.
   */
  function FormatTime(stamp: int, now: int, localeDate: string): (r: string)
    ensures r == "Proprio ora" || r == localeDate ||
      (|r| > 4 && AllDigits(r[..|r| - 4]) && r[|r| - 4..] == "h fa")
  {
    var hours := (now - stamp) / MsPerHour;
    if hours < 1 then "Proprio ora"
    else if hours < 24 then Decimal(hours) + "h fa"
    else localeDate
  }

  /** Under an hour (or a timestamp in the future) reads "Proprio ora". */
  lemma FormatTimeJustNow(stamp: int, now: int, localeDate: string)
    requires now - stamp < MsPerHour
    ensures FormatTime(stamp, now, localeDate) == "Proprio ora"
  {
  }

  /** `h` whole hours, for `h` between 1 and 23, read "<h>h fa", and the count reads back as `h`. */
  lemma FormatTimeHours(stamp: int, now: int, localeDate: string, h: nat)
    requires 1 <= h < 24 && h * MsPerHour <= now - stamp < (h + 1) * MsPerHour
    ensures FormatTime(stamp, now, localeDate) == Decimal(h) + "h fa"
    ensures ParseDecimal(FormatTime(stamp, now, localeDate)[..|Decimal(h)|]) == h
  {
    assert (now - stamp) / MsPerHour == h;
    ParseDecimalOfDecimal(h);
    assert FormatTime(stamp, now, localeDate)[..|Decimal(h)|] == Decimal(h);
  }

  /** A day or more falls through to the date string. */
  lemma FormatTimeDate(stamp: int, now: int, localeDate: string)
    requires now - stamp >= 24 * MsPerHour
    ensures FormatTime(stamp, now, localeDate) == localeDate
  {
    assert (now - stamp) / MsPerHour >= 24;
  }
}
