/** Who a message is composed for, and who can open it: the recipient lists of the compose page, what it
    hands to the backend on sending, and the keys the backend seals the message for. */
module Recipients {
  import opened Wrappers
  import B = PrivateBox

  datatype PublicHalf = PublicHalf(encryptionKey: Bytes, signingKey: Bytes)

  datatype Draft = Draft(
    disclosed: seq<PublicHalf>,
    hidden: seq<PublicHalf>,
    selected: seq<PublicHalf>,
    content: string,
    image: Option<Bytes>,
    expirationDays: Option<nat>
  ) {
    /** Everyone chosen so far. */
    function Chosen(): set<PublicHalf> { Members(disclosed) + Members(hidden) }
  }

  datatype Action =
    | Select(half: PublicHalf)
    | Unselect(half: PublicHalf)
    | AddHidden
    | AddDisclosed
    | RemoveHidden(half: PublicHalf)
    | RemoveDisclosed(half: PublicHalf)
    | ClearSelected
    | SetImage(image: Bytes)
    | ClearImage
    | SetContent(content: string)
    | SetExpirationDays(days: nat)
    | Reset

  function Members(halves: seq<PublicHalf>): set<PublicHalf> {
    set h | h in halves
  }

  // ---------------------------------------------------------------- lists as sets

  /** `halves` without those in `gone`, in the same order. */
  function Dropping(halves: seq<PublicHalf>, gone: set<PublicHalf>): (kept: seq<PublicHalf>)
    ensures Members(kept) == Members(halves) - gone
    ensures |kept| <= |halves|
    ensures NoDuplicates(halves) ==> NoDuplicates(kept)
  {
    if halves == [] then
      []
    else
      var rest := Dropping(halves[..|halves| - 1], gone);
      var last := halves[|halves| - 1];
      assert Members(halves) == Members(halves[..|halves| - 1]) + {last};
      if last in gone then
        rest
      else
        assert NoDuplicates(halves) ==> last !in Members(halves[..|halves| - 1]) by {
          assert last in Members(halves[..|halves| - 1]) ==> exists i :: 0 <= i < |halves| - 1 && halves[i] == last;
        }
        assert Members(rest + [last]) == Members(rest) + {last};
        assert last !in Members(rest) ==> forall i :: 0 <= i < |rest| ==> rest[i] != last;
        rest + [last]
  }

  /** One comes before the other in the list. */
  ghost predicate Precedes(halves: seq<PublicHalf>, a: PublicHalf, b: PublicHalf) {
    exists i, j :: 0 <= i < j < |halves| && halves[i] == a && halves[j] == b
  }

  lemma PrecedesSnoc(halves: seq<PublicHalf>, last: PublicHalf, a: PublicHalf, b: PublicHalf)
    ensures Precedes(halves + [last], a, b) <==> Precedes(halves, a, b) || (a in halves && b == last)
  {
    var longer := halves + [last];
    if i, j :| 0 <= i < j < |halves| && halves[i] == a && halves[j] == b {
      assert longer[i] == a && longer[j] == b;
    }
    if a in halves && b == last {
      var i :| 0 <= i < |halves| && halves[i] == a;
      assert longer[i] == a && longer[|halves|] == b;
    }
  }

  /** Those who stay keep their order. */
  lemma {:induction false} DroppingKeepsOrder(
    halves: seq<PublicHalf>, gone: set<PublicHalf>, a: PublicHalf, b: PublicHalf)
    requires a !in gone && b !in gone
    ensures Precedes(Dropping(halves, gone), a, b) <==> Precedes(halves, a, b)
  {
    if halves != [] {
      var init, last := halves[..|halves| - 1], halves[|halves| - 1];
      DroppingKeepsOrder(init, gone, a, b);
      InDropping(init, gone, a);
      assert halves == init + [last];
      PrecedesSnoc(init, last, a, b);
      PrecedesSnoc(Dropping(init, gone), last, a, b);
      hide Precedes;
    }
  }

  lemma AppendingNew(halves: seq<PublicHalf>, more: seq<PublicHalf>)
    requires NoDuplicates(halves) && NoDuplicates(more) && Members(halves) !! Members(more)
    ensures NoDuplicates(halves + more)
    ensures Members(halves + more) == Members(halves) + Members(more)
  {
    var all := halves + more;
    forall i, j | 0 <= i < j < |all| ensures all[i] != all[j] {
      if i < |halves| <= j {
        assert halves[i] in Members(halves) && more[j - |halves|] in Members(more);
      }
    }
  }

  lemma {:induction false} SizeOfMembers(halves: seq<PublicHalf>)
    requires NoDuplicates(halves)
    ensures |Members(halves)| == |halves|
  {
    if halves != [] {
      var init, last := halves[..|halves| - 1], halves[|halves| - 1];
      SizeOfMembers(init);
      assert Members(halves) == Members(init) + {last};
      assert last !in Members(init);
    }
  }

  // ---------------------------------------------------------------- the reducer

  function Reduce(initial: Draft, s: Draft, action: Action): Draft {
    match action
    case Select(half) => if half in s.selected then s else s.(selected := s.selected + [half])
    case Unselect(half) => s.(selected := Dropping(s.selected, {half}))
    case AddHidden =>
      s.(disclosed := Dropping(s.disclosed, Members(s.selected)),
         hidden := s.hidden + Dropping(s.selected, Members(s.hidden)),
         selected := [])
    case AddDisclosed =>
      s.(hidden := Dropping(s.hidden, Members(s.selected)),
         disclosed := s.disclosed + Dropping(s.selected, Members(s.disclosed)),
         selected := [])
    case RemoveHidden(half) => s.(hidden := Dropping(s.hidden, {half}))
    case RemoveDisclosed(half) => s.(disclosed := Dropping(s.disclosed, {half}))
    case ClearSelected => s.(selected := [])
    case SetImage(image) => s.(image := Some(image))
    case ClearImage => s.(image := None)
    case SetContent(content) => s.(content := content)
    case SetExpirationDays(days) => s.(expirationDays := Some(days))
    case Reset => initial
  }

  /** Nobody is listed twice, and nobody is both disclosed and hidden. */
  ghost predicate Tidy(s: Draft) {
    && NoDuplicates(s.disclosed) && NoDuplicates(s.hidden) && NoDuplicates(s.selected)
    && Members(s.disclosed) !! Members(s.hidden)
  }

  lemma ReduceKeepsTidy(initial: Draft, s: Draft, action: Action)
    requires Tidy(s) && (action.Reset? ==> Tidy(initial))
    ensures Tidy(Reduce(initial, s, action))
  {
    match action {
      case AddHidden =>
        AppendingNew(s.hidden, Dropping(s.selected, Members(s.hidden)));
      case AddDisclosed =>
        AppendingNew(s.disclosed, Dropping(s.selected, Members(s.disclosed)));
      case _ =>
    }
  }

  /** Adding moves the whole selection to the end of the one list and takes it from the other. */
  lemma AddingMovesTheSelection(initial: Draft, s: Draft)
    requires Tidy(s)
    ensures var t := Reduce(initial, s, AddHidden);
            && Members(t.hidden) == Members(s.hidden) + Members(s.selected)
            && Members(t.disclosed) == Members(s.disclosed) - Members(s.selected)
            && s.hidden <= t.hidden && t.selected == []
    ensures var t := Reduce(initial, s, AddDisclosed);
            && Members(t.disclosed) == Members(s.disclosed) + Members(s.selected)
            && Members(t.hidden) == Members(s.hidden) - Members(s.selected)
            && s.disclosed <= t.disclosed && t.selected == []
    ensures Reduce(initial, s, AddHidden).Chosen() == Reduce(initial, s, AddDisclosed).Chosen()
            == s.Chosen() + Members(s.selected)
  {
    AppendingNew(s.hidden, Dropping(s.selected, Members(s.hidden)));
    AppendingNew(s.disclosed, Dropping(s.selected, Members(s.disclosed)));
  }

  function Compose(initial: Draft, s: Draft, actions: seq<Action>): Draft
    decreases |actions|
  {
    if actions == [] then s else Compose(initial, Reduce(initial, s, actions[0]), actions[1..])
  }

  lemma {:induction false} ComposingStaysTidy(initial: Draft, s: Draft, actions: seq<Action>)
    requires Tidy(initial) && Tidy(s)
    ensures Tidy(Compose(initial, s, actions))
    decreases |actions|
  {
    if actions != [] {
      ReduceKeepsTidy(initial, s, actions[0]);
      ComposingStaysTidy(initial, Reduce(initial, s, actions[0]), actions[1..]);
    }
  }

  // ---------------------------------------------------------------- one recipient followed

  /** On which of the lists someone is. */
  datatype Standing = Standing(disclosed: bool, hidden: bool, selected: bool)

  function StandingOf(s: Draft, half: PublicHalf): Standing {
    Standing(half in s.disclosed, half in s.hidden, half in s.selected)
  }

  /** What an action means to one person. */
  function Followed(initial: Standing, standing: Standing, action: Action, half: PublicHalf): Standing {
    match action
    case Select(other) => if other == half then standing.(selected := true) else standing
    case Unselect(other) => if other == half then standing.(selected := false) else standing
    case AddHidden => if standing.selected then Standing(false, true, false) else standing
    case AddDisclosed => if standing.selected then Standing(true, false, false) else standing
    case RemoveHidden(other) => if other == half then standing.(hidden := false) else standing
    case RemoveDisclosed(other) => if other == half then standing.(disclosed := false) else standing
    case ClearSelected => standing.(selected := false)
    case Reset => initial
    case _ => standing
  }

  function FollowedAll(initial: Standing, standing: Standing, actions: seq<Action>, half: PublicHalf): Standing
    decreases |actions|
  {
    if actions == [] then
      standing
    else
      FollowedAll(initial, Followed(initial, standing, actions[0], half), actions[1..], half)
  }

  lemma InMembers(halves: seq<PublicHalf>, half: PublicHalf)
    ensures half in Members(halves) <==> half in halves
  {
  }

  lemma InDropping(halves: seq<PublicHalf>, gone: set<PublicHalf>, half: PublicHalf)
    ensures half in Dropping(halves, gone) <==> half in halves && half !in gone
  {
    InMembers(halves, half);
    InMembers(Dropping(halves, gone), half);
  }

  lemma ReducingFollows(initial: Draft, s: Draft, action: Action, half: PublicHalf)
    ensures StandingOf(Reduce(initial, s, action), half) ==
            Followed(StandingOf(initial, half), StandingOf(s, half), action, half)
  {
    forall gone ensures half in Dropping(s.disclosed, gone) <==> half in s.disclosed && half !in gone {
      InDropping(s.disclosed, gone, half);
    }
    forall gone ensures half in Dropping(s.hidden, gone) <==> half in s.hidden && half !in gone {
      InDropping(s.hidden, gone, half);
    }
    forall gone ensures half in Dropping(s.selected, gone) <==> half in s.selected && half !in gone {
      InDropping(s.selected, gone, half);
    }
    hide Dropping, NoDuplicates;
  }

  /** Over every sequence of actions, each person is on the lists that the actions about this person, and about
      whoever is selected, lead to. */
  lemma {:induction false} ComposingFollows(initial: Draft, s: Draft, actions: seq<Action>, half: PublicHalf)
    ensures StandingOf(Compose(initial, s, actions), half) ==
            FollowedAll(StandingOf(initial, half), StandingOf(s, half), actions, half)
    decreases |actions|
  {
    hide Reduce, Followed, StandingOf;
    if actions != [] {
      ReducingFollows(initial, s, actions[0], half);
      ComposingFollows(initial, Reduce(initial, s, actions[0]), actions[1..], half);
    }
  }

  /** Removing takes one person off one list, and changes nothing else. */
  lemma RemovingTakesOff(initial: Draft, s: Draft, half: PublicHalf)
    ensures var t := Reduce(initial, s, RemoveHidden(half));
            Members(t.hidden) == Members(s.hidden) - {half} && t == s.(hidden := t.hidden)
    ensures var t := Reduce(initial, s, RemoveDisclosed(half));
            Members(t.disclosed) == Members(s.disclosed) - {half} && t == s.(disclosed := t.disclosed)
  {
  }

  /** The selection changes by one person, or is emptied, and nothing else changes. */
  lemma SelectingChangesTheSelection(initial: Draft, s: Draft, half: PublicHalf)
    ensures var t := Reduce(initial, s, Select(half));
            Members(t.selected) == Members(s.selected) + {half} && t == s.(selected := t.selected)
    ensures var t := Reduce(initial, s, Unselect(half));
            Members(t.selected) == Members(s.selected) - {half} && t == s.(selected := t.selected)
    ensures var t := Reduce(initial, s, ClearSelected);
            Members(t.selected) == {} && t == s.(selected := t.selected)
  {
    assert Members(s.selected + [half]) == Members(s.selected) + {half};
    assert half in s.selected ==> half in Members(s.selected);
  }

  /** Image, content and expiration are the last ones set since the last reset; no other action touches them. */
  lemma SettingSets(initial: Draft, s: Draft, action: Action)
    ensures var t := Reduce(initial, s, action);
            && (t.image != s.image ==> action.SetImage? || action.ClearImage? || action.Reset?)
            && (t.content != s.content ==> action.SetContent? || action.Reset?)
            && (t.expirationDays != s.expirationDays ==> action.SetExpirationDays? || action.Reset?)
            && (action.SetImage? ==> t == s.(image := Some(action.image)))
            && (action.ClearImage? ==> t.image.None? && t == s.(image := t.image))
            && (action.SetContent? ==> t == s.(content := action.content))
            && (action.SetExpirationDays? ==> t == s.(expirationDays := Some(action.days)))
            && (action.Reset? ==> t == initial)
  {
  }

  // ---------------------------------------------------------------- the initial lists

  /** The message being replied to, as far as recipients go. */
  datatype Reply = Reply(sender: PublicHalf, disclosed: seq<PublicHalf>)

  /** A reply goes to the sender and to everyone the message disclosed, each once and without the own inbox;
      but an inbox that answers its own message does write to itself. */
  method InitialDraft(own: Option<PublicHalf>, repliedTo: Option<Reply>) returns (draft: Draft)
    ensures Tidy(draft)
    ensures draft.hidden == draft.selected == [] && draft.content == ""
    ensures draft.image == None && draft.expirationDays == None
    ensures Members(draft.disclosed) ==
            if repliedTo.None? || own.None? then {}
            else Members(repliedTo.value.disclosed) - {own.value} + {repliedTo.value.sender}
  {
    var recipients: seq<PublicHalf> := [];
    if repliedTo.Some? && own.Some? {
      var recipientSet: set<PublicHalf> := {};
      var disclosed := repliedTo.value.disclosed;
      for i := 0 to |disclosed|
        invariant NoDuplicates(recipients)
        invariant recipientSet == Members(recipients)
        invariant recipientSet == Members(disclosed[..i]) - {own.value}
      {
        assert Members(disclosed[..i + 1]) == Members(disclosed[..i]) + {disclosed[i]};
        if disclosed[i] == own.value {
          continue;
        }
        if disclosed[i] in recipientSet {
          continue;
        }
        recipientSet := recipientSet + {disclosed[i]};
        AppendingNew(recipients, [disclosed[i]]);
        recipients := recipients + [disclosed[i]];
      }
      assert disclosed[..|disclosed|] == disclosed;
      var sender := repliedTo.value.sender;
      if sender !in recipientSet {
        AppendingNew(recipients, [sender]);
        recipients := recipients + [sender];
      }
    }
    draft := Draft(recipients, [], [], "", None, None);
  }

  // ---------------------------------------------------------------- sending

  /** The hidden recipients handed to the backend: the sender joins unless already chosen. */
  function HiddenWithSender(s: Draft, own: PublicHalf): seq<PublicHalf> {
    s.hidden + (if own in s.disclosed || own in s.hidden then [] else [own])
  }

  function EncryptionKeys(halves: seq<PublicHalf>): seq<Bytes> {
    seq(|halves|, i requires 0 <= i < |halves| => halves[i].encryptionKey)
  }

  /** The keys the backend seals for: hidden, then disclosed, then its own key once more. */
  function SealedFor(s: Draft, own: PublicHalf): seq<Bytes> {
    EncryptionKeys(HiddenWithSender(s, own)) + EncryptionKeys(s.disclosed) + [own.encryptionKey]
  }

  method EncodeMessage(
    c: B.Crypto, d: B.Draw, plaintext: Bytes,
    hiddenRecipients: seq<Bytes>, disclosedRecipients: seq<PublicHalf>, publicEncryptionKey: Bytes)
    returns (blob: Option<Bytes>)
    ensures var keys := hiddenRecipients + EncryptionKeys(disclosedRecipients) + [publicEncryptionKey];
            && (blob.Some? <==> |keys| <= B.MAX_RECIPIENTS && B.Acceptable(c, d, keys))
            && (blob.Some? ==> blob.value == B.Box(c, d, plaintext, keys))
  {
    var recipients: seq<Bytes> := [];
    for i := 0 to |hiddenRecipients|
      invariant recipients == hiddenRecipients[..i]
    {
      recipients := recipients + [hiddenRecipients[i]];
    }
    for i := 0 to |disclosedRecipients|
      invariant recipients == hiddenRecipients + EncryptionKeys(disclosedRecipients)[..i]
    {
      recipients := recipients + [disclosedRecipients[i].encryptionKey];
    }
    assert recipients == hiddenRecipients + EncryptionKeys(disclosedRecipients);
    recipients := recipients + [publicEncryptionKey];
    blob := B.Encrypt(c, d, plaintext, recipients);
  }

  /** How many keys a draft is sealed for: everyone chosen, the sender once if it is among them, and twice if
      it is not. */
  lemma KeysOfDraft(s: Draft, own: PublicHalf)
    requires Tidy(s)
    ensures |SealedFor(s, own)| == |s.Chosen()| + (if own in s.Chosen() then 1 else 2)
    ensures |s.Chosen()| == |s.disclosed| + |s.hidden|
  {
    SizeOfMembers(s.disclosed);
    SizeOfMembers(s.hidden);
    assert own in s.Chosen() <==> own in s.disclosed || own in s.hidden;
  }

  lemma KeysOf(halves: seq<PublicHalf>, key: Bytes)
    ensures key in EncryptionKeys(halves) <==> exists half :: half in halves && half.encryptionKey == key
  {
    if half :| half in halves && half.encryptionKey == key {
      var i :| 0 <= i < |halves| && halves[i] == half;
      assert EncryptionKeys(halves)[i] == key;
    }
  }

  /** A message is sealed for the keys of those chosen and of the sender, and for no other key. */
  lemma SealedForExactly(s: Draft, own: PublicHalf, key: Bytes)
    ensures key in SealedFor(s, own) <==>
            key == own.encryptionKey || exists half :: half in s.Chosen() && half.encryptionKey == key
  {
    KeysOf(s.disclosed, key);
    KeysOf(HiddenWithSender(s, own), key);
    forall half ensures half in s.Chosen() <==> half in s.disclosed || half in s.hidden {}
    hide EncryptionKeys;
  }

  /** Whoever was removed, and is not the sender, is sealed for only if someone still chosen has the same key. */
  lemma RemovedIsNotSealedFor(initial: Draft, s: Draft, action: Action, own: PublicHalf)
    requires Tidy(s)
    requires || (action.RemoveHidden? && action.half in s.hidden)
             || (action.RemoveDisclosed? && action.half in s.disclosed)
    ensures var t, gone := Reduce(initial, s, action), action.half;
            && t.Chosen() == s.Chosen() - {gone}
            && (gone.encryptionKey in SealedFor(t, own) <==>
                gone.encryptionKey == own.encryptionKey ||
                exists half :: half in s.Chosen() && half != gone && half.encryptionKey == gone.encryptionKey)
  {
    RemovingTakesOff(initial, s, action.half);
    SealedForExactly(Reduce(initial, s, action), own, action.half.encryptionKey);
    InMembers(s.hidden, action.half);
    InMembers(s.disclosed, action.half);
    hide Reduce, SealedFor;
  }

  ghost predicate Sendable(c: B.Crypto, d: B.Draw, s: Draft, own: PublicHalf) {
    |SealedFor(s, own)| <= B.MAX_RECIPIENTS && B.Acceptable(c, d, SealedFor(s, own))
  }

  /** A draft with acceptable keys can be sent exactly when it names at most 253 recipients, or 254 with the
      sender among them. */
  lemma SendableExactly(c: B.Crypto, d: B.Draw, s: Draft, own: PublicHalf)
    requires Tidy(s) && B.Acceptable(c, d, SealedFor(s, own))
    ensures Sendable(c, d, s, own) <==> |s.Chosen()| <= (if own in s.Chosen() then 254 else 253)
  {
    KeysOfDraft(s, own);
  }

  const RECIPIENT_LIMIT: nat := 255

  /** The page refuses to add a selection that takes the lists past its limit. */
  predicate LimitExceeded(s: Draft) {
    |s.disclosed| + |s.hidden| + |s.selected| > RECIPIENT_LIMIT
  }

  /** Where nobody selected is chosen already, the page refuses exactly the additions that choose more than 255. */
  lemma LimitExactly(s: Draft)
    requires Tidy(s) && s.Chosen() !! Members(s.selected)
    ensures LimitExceeded(s) <==> |s.Chosen() + Members(s.selected)| > 255
  {
    SizeOfMembers(s.disclosed);
    SizeOfMembers(s.hidden);
    SizeOfMembers(s.selected);
  }

  /** The page's own limit lets through drafts that cannot be encrypted for anyone. */
  lemma PageLimitIsNotEnough(
    c: B.Crypto, d: B.Draw, initial: Draft, s: Draft, action: Action, own: PublicHalf)
    requires Tidy(s) && |s.Chosen() + Members(s.selected)| == RECIPIENT_LIMIT
    requires action.AddHidden? || action.AddDisclosed?
    ensures !Sendable(c, d, Reduce(initial, s, action), own)
  {
    AddingMovesTheSelection(initial, s);
    ReduceKeepsTidy(initial, s, action);
    hide Reduce, Tidy, Sendable, Draft.Chosen;
    TooManyToSend(c, d, Reduce(initial, s, action), own);
  }

  lemma TooManyToSend(c: B.Crypto, d: B.Draw, s: Draft, own: PublicHalf)
    requires Tidy(s) && |s.Chosen()| >= RECIPIENT_LIMIT
    ensures !Sendable(c, d, s, own)
  {
    KeysOfDraft(s, own);
  }

  /** Both keys have the length that a public half is read with. */
  predicate WellSizedHalf(half: PublicHalf) {
    |half.encryptionKey| == B.PUBLICKEYBYTES && |half.signingKey| == B.PUBLICKEYBYTES
  }

  function NthHalf(i: byte): PublicHalf {
    PublicHalf([i] + B.Zeros(B.PUBLICKEYBYTES - 1), B.Zeros(B.PUBLICKEYBYTES))
  }

  lemma LetThroughByThePage(n: nat) returns (s: Draft)
    requires n <= RECIPIENT_LIMIT
    ensures Tidy(s) && !LimitExceeded(s) && |s.Chosen() + Members(s.selected)| == n
    ensures forall half :: half in s.Chosen() + Members(s.selected) ==> WellSizedHalf(half)
  {
    var halves := seq(n, i requires 0 <= i < n => NthHalf(i));
    s := Draft([], [], halves, "", None, None);
    forall i, j | 0 <= i < j < n ensures halves[i] != halves[j] {
      assert halves[i].encryptionKey[0] == i && halves[j].encryptionKey[0] == j;
    }
    SizeOfMembers(halves);
    assert s.Chosen() + Members(s.selected) == Members(halves);
  }

  /** Everyone chosen, and the sender, opens the message that was sent. */
  lemma EveryoneChosenOpens(
    c: B.Crypto, d: B.Draw, plaintext: Bytes, s: Draft, own: PublicHalf,
    reader: PublicHalf, privateKey: Bytes, outcome: B.Outcome)
    requires B.Lawful(c) && B.WellSized(d)
    requires Sendable(c, d, s, own)
    requires reader in s.Chosen() || reader == own
    requires c.agree(privateKey, d.publicKey) == c.agree(d.privateKey, reader.encryptionKey)
    requires forall i :: 0 <= i < |SealedFor(s, own)| ==> B.Separated(c, d, SealedFor(s, own), i)
    requires B.Reading(c, B.Box(c, d, plaintext, SealedFor(s, own)), privateKey, outcome)
    ensures outcome == B.Opened(plaintext)
  {
    var i := PositionOf(s, own, reader);
    B.EveryRecipientOpens(c, d, plaintext, SealedFor(s, own), i, privateKey, outcome);
  }

  lemma PositionOf(s: Draft, own: PublicHalf, reader: PublicHalf) returns (i: nat)
    requires reader in s.Chosen() || reader == own
    ensures i < |SealedFor(s, own)| && SealedFor(s, own)[i] == reader.encryptionKey
  {
    var hidden := HiddenWithSender(s, own);
    if reader in s.hidden {
      i :| 0 <= i < |s.hidden| && s.hidden[i] == reader;
      assert hidden[i] == reader;
    } else if reader in s.disclosed {
      var j :| 0 <= j < |s.disclosed| && s.disclosed[j] == reader;
      i := |hidden| + j;
    } else {
      i := |SealedFor(s, own)| - 1;
    }
  }
}
