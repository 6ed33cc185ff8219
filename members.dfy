/** The query logic of the members API controller (core/server/api/canary/members.js):
    the `add` query with its creation-error reclassifier, the `read` not-found check,
    and the `importCSV` query that turns every parsed row into an `add` and tallies
    the outcomes into imported / duplicates / invalid.

    The members service is not part of this model: its `create` and `get` calls are
    parameters (functions from the request to the settled answer). */
module Members {
  import opened Text

  // ---------------------------------------------------------------------------
  // Errors and settled promises

  /** The class of a rejection reason, as `instanceof` sees it. */
  datatype ErrorKind = ValidationError | NotFoundError | OtherError(name: string)

  /** The `code` property of an error: absent (undefined / null), a string or a number. */
  datatype Code = NoCode | CodeText(text: string) | CodeNumber(n: int)

  /** A rejection reason: its class, its `code` and its `message`. */
  datatype Error = Error(kind: ErrorKind, code: Code, message: string)

  /** A promise after it settles. */
  datatype Settled<+T> = Fulfilled(value: T) | Rejected(reason: Error)

  /** JavaScript truthiness of an error code. */
  predicate Truthy(c: Code)
  {
    match c
    case NoCode => false
    case CodeText(t) => t != ""
    case CodeNumber(n) => n != 0
  }

  /** The localized "member already exists" message (the translation text is a stand-in). */
  const AlreadyExistsMessage: string := "Member already exists."

  /** The localized "member not found" message (the translation text is a stand-in). */
  const NotFoundMessage: string := "Member not found."

  /** The error `add` rejects with for a uniqueness violation; it carries no code. */
  const MemberAlreadyExists: Error := Error(ValidationError, NoCode, AlreadyExistsMessage)

  /** The error `read` rejects with when the member is absent. */
  const MemberNotFound: Error := Error(NotFoundError, NoCode, NotFoundMessage)

  const UniqueWord: string := "unique"

  /** Some six-character window of `message`, lower-cased, spells "unique". */
  ghost predicate MentionsUnique(message: string)
  {
    exists i :: OccursAt(ToLower(message), UniqueWord, i)
  }

  /** What the reclassifier treats as a violated uniqueness constraint. */
  ghost predicate IsUniqueViolation(e: Error)
  {
    Truthy(e.code) && MentionsUnique(e.message)
  }

  // ---------------------------------------------------------------------------
  // Members, requests and the members service

  datatype Member = Member(id: string, email: string, name: Option<string>)

  datatype Option<+T> = None | Some(value: T)

  /** One entry of `frame.data.members`: email, name and whatever else the caller sent. */
  datatype MemberData = MemberData(email: Option<string>, name: Option<string>, others: map<string, string>)

  /** `frame.options.context`, passed through untouched. */
  type Context = map<string, string>

  /** The options nested at `frame.options.options`. */
  datatype NestedOptions = NestedOptions(sendEmail: Option<bool>)

  /** `frame.options`: the top-level `send_email` and `email_type`, the context and the nested options. */
  datatype Options = Options(
    sendEmail: Option<bool>,
    emailType: Option<string>,
    context: Context,
    nested: Option<NestedOptions>)

  datatype AddFrame = AddFrame(members: seq<MemberData>, options: Options)

  /** The options object handed to the service's `create`. */
  datatype CreateOptions = CreateOptions(sendEmail: Option<bool>, emailType: Option<string>)

  /** One call of the service's `create`: `frame.data.members[0]` (undefined when the list is empty) and its options. */
  datatype CreateCall = CreateCall(input: Option<MemberData>, options: CreateOptions)

  /** The service's `create`. A fulfilled `None` stands for any falsy member. */
  type CreateService = CreateCall -> Settled<Option<Member>>

  /** The service's `create` as seen by a batch: the answer may depend on which row (by index) made the call. */
  type BatchService = (nat, CreateCall) -> Settled<Option<Member>>

  /** `frame.data` of a read: the member's id or email. */
  datatype ReadData = ReadData(id: Option<string>, email: Option<string>)

  datatype ReadFrame = ReadFrame(data: ReadData, options: Options)

  /** The service's `get`. A fulfilled `None` stands for any falsy member. */
  type GetService = (ReadData, Options) -> Settled<Option<Member>>

  /** A parsed CSV entry: the `email` and `name` columns (undefined when the column is missing). */
  datatype Row = Row(email: Option<string>, name: Option<string>)

  datatype Stats = Stats(imported: nat, duplicates: nat, invalid: nat)

  datatype Meta = Meta(stats: Stats)

  /** `{meta: {stats: {imported, duplicates, invalid}}}` */
  datatype ImportResult = ImportResult(meta: Meta)

  // ---------------------------------------------------------------------------
  // read

  /** `read.query`: a missing member becomes a NotFound rejection; a failing `get` rejects as it is. */
  function ReadQuery(frame: ReadFrame, get: GetService): (r: Settled<Member>)
    ensures get(frame.data, frame.options).Rejected? ==> r == Rejected(get(frame.data, frame.options).reason)
    ensures get(frame.data, frame.options) == Fulfilled(None) ==> r == Rejected(MemberNotFound)
    ensures get(frame.data, frame.options).Fulfilled? && get(frame.data, frame.options).value.Some? ==>
              r == Fulfilled(get(frame.data, frame.options).value.value)
  {
    match get(frame.data, frame.options)
    case Rejected(e) => Rejected(e)
    case Fulfilled(found) =>
      if found.None? then Rejected(MemberNotFound) else Fulfilled(found.value)
  }

  /** When the lookup itself succeeds, `read` fails exactly when the member is absent,
      and then with NotFound. */
  lemma ReadNotFoundIffAbsent(frame: ReadFrame, get: GetService)
    requires get(frame.data, frame.options).Fulfilled?
    ensures ReadQuery(frame, get).Rejected? <==> get(frame.data, frame.options).value.None?
    ensures ReadQuery(frame, get).Rejected? ==> ReadQuery(frame, get).reason.kind == NotFoundError
  {
  }

  // ---------------------------------------------------------------------------
  // add

  /** The `.catch` of `add.query`: a coded error whose lower-cased message contains
      "unique" becomes the "member already exists" ValidationError; anything else is
      rejected again unchanged. */
  function Reclassify(e: Error): (r: Error)
    ensures IsUniqueViolation(e) ==> r == MemberAlreadyExists
    ensures !IsUniqueViolation(e) ==> r == e
  {
    if Truthy(e.code) && IndexOf(ToLower(e.message), UniqueWord) != -1 then MemberAlreadyExists else e
  }

  /** The call `add.query` makes to the service's `create`. */
  function CreateRequest(frame: AddFrame): CreateCall
  {
    CreateCall(
      if |frame.members| > 0 then Some(frame.members[0]) else None,
      CreateOptions(frame.options.sendEmail, frame.options.emailType))
  }

  /** `add.query`: a fulfilled create resolves with the member, and with undefined
      (`None`) when the member is falsy; a rejected create is reclassified. */
  function Add(frame: AddFrame, create: CreateService): (r: Settled<Option<Member>>)
    ensures create(CreateRequest(frame)).Fulfilled? ==> r == Fulfilled(create(CreateRequest(frame)).value)
    ensures create(CreateRequest(frame)).Rejected? && IsUniqueViolation(create(CreateRequest(frame)).reason) ==>
              r == Rejected(MemberAlreadyExists)
    ensures create(CreateRequest(frame)).Rejected? && !IsUniqueViolation(create(CreateRequest(frame)).reason) ==>
              r == Rejected(create(CreateRequest(frame)).reason)
  {
    match create(CreateRequest(frame))
    // `if (member) return member;` otherwise undefined: a falsy member resolves as None either way
    case Fulfilled(member) => Fulfilled(member)
    case Rejected(e) => Rejected(Reclassify(e))
  }

  /** The message test is case-insensitive and positional: the lower-cased message
      contains "unique" exactly when some six characters of the raw message,
      lower-cased, spell it. */
  lemma MentionsUniqueIffWindow(message: string)
    ensures MentionsUnique(message) <==>
              exists i :: 0 <= i && i + 6 <= |message| && SpellsUniqueAt(message, i)
  {
    if MentionsUnique(message) {
      var i :| OccursAt(ToLower(message), UniqueWord, i);
      ToLowerSlice(message, i, i + 6);
      assert SpellsUniqueAt(message, i);
    }
    if exists i :: 0 <= i && i + 6 <= |message| && SpellsUniqueAt(message, i) {
      var i :| 0 <= i && i + 6 <= |message| && SpellsUniqueAt(message, i);
      ToLowerSlice(message, i, i + 6);
      assert OccursAt(ToLower(message), UniqueWord, i);
    }
  }

  predicate SpellsUniqueAt(message: string, i: int)
    requires 0 <= i && i + 6 <= |message|
  {
    ToLower(message[i..i + 6]) == UniqueWord
  }

  /** Any spelling of "unique" (UNIQUE, Unique, ...) anywhere in the message, with a
      truthy code, turns the error into "member already exists". */
  lemma UniqueAnywhereIsDuplicate(e: Error, before: string, word: string, after: string)
    requires Truthy(e.code)
    requires e.message == before + word + after
    requires ToLower(word) == UniqueWord
    ensures Reclassify(e) == MemberAlreadyExists
  {
    ToLowerConcat(before + word, after);
    ToLowerConcat(before, word);
    var lowered := ToLower(e.message);
    assert lowered == ToLower(before) + UniqueWord + ToLower(after);
    assert lowered[|before|..|before| + 6] == UniqueWord;
    assert OccursAt(lowered, UniqueWord, |before|);
  }

  /** Reclassifying twice changes nothing: the "already exists" error has no code. */
  lemma ReclassifyIdempotent(e: Error)
    ensures Reclassify(Reclassify(e)) == Reclassify(e)
  {
  }

  // ---------------------------------------------------------------------------
  // importCSV

  /** The `add` frame built for one parsed row: a one-element members list with only
      the row's email and name; `send_email: false` sits at `options.options`. */
  function ImportRequest(row: Row, context: Context): AddFrame
  {
    AddFrame(
      [MemberData(row.email, row.name, map[])],
      Options(None, None, context, Some(NestedOptions(Some(false)))))
  }

  /** What the import's `create` call carries: exactly the row's email and name, and a
      `sendEmail` that reads undefined (never true). */
  lemma ImportCreateCall(row: Row, context: Context)
    ensures CreateRequest(ImportRequest(row, context)) ==
              CreateCall(Some(MemberData(row.email, row.name, map[])), CreateOptions(None, None))
    ensures CreateRequest(ImportRequest(row, context)).options.sendEmail != Some(true)
  {
  }

  /** The create service row `i` of a batch talks to. */
  function RowService(service: BatchService, i: nat): CreateService
  {
    c => service(i, c)
  }

  /** `Promise.all(rows.map(row => add.query(...).reflect()))`: one settled `add` per row. */
  function Attempts(rows: seq<Row>, context: Context, service: BatchService): seq<Settled<Option<Member>>>
  {
    seq(|rows|, i requires 0 <= i < |rows| => Add(ImportRequest(rows[i], context), RowService(service, i)))
  }

  /** Which counter an outcome increments. */
  datatype Bucket = Imported | Duplicate | Invalid

  /** Fulfilled → imported; rejected with any ValidationError → duplicate; otherwise invalid. */
  function Classify(outcome: Settled<Option<Member>>): Bucket
  {
    match outcome
    case Fulfilled(_) => Imported
    case Rejected(e) => if e.kind.ValidationError? then Duplicate else Invalid
  }

  /** The number of outcomes falling into `b`. */
  function Count(outcomes: seq<Settled<Option<Member>>>, b: Bucket): nat
  {
    if outcomes == [] then 0
    else Count(outcomes[..|outcomes| - 1], b) + (if Classify(outcomes[|outcomes| - 1]) == b then 1 else 0)
  }

  /** The three counters over a list of outcomes. */
  function Tally(outcomes: seq<Settled<Option<Member>>>): Stats
  {
    Stats(Count(outcomes, Imported), Count(outcomes, Duplicate), Count(outcomes, Invalid))
  }

  function Total(s: Stats): nat
  {
    s.imported + s.duplicates + s.invalid
  }

  /** `importCSV.query`. If reading the rows fails, the import rejects with that error;
      otherwise every row is attempted and the result is exactly the tally of all
      outcomes, which accounts for every row. */
  method ImportCSV(parsed: Settled<seq<Row>>, context: Context, service: BatchService)
    returns (r: Settled<ImportResult>)
    ensures parsed.Rejected? ==> r == Rejected(parsed.reason)
    ensures parsed.Fulfilled? ==> r == Fulfilled(ImportResult(Meta(Tally(Attempts(parsed.value, context, service)))))
    ensures parsed.Fulfilled? ==> Total(r.value.meta.stats) == |parsed.value|
  {
    var fulfilled, invalid, duplicates := 0, 0, 0;
    if parsed.Rejected? {
      return Rejected(parsed.reason);
    }
    var inspections := Attempts(parsed.value, context, service);
    var i := 0;
    while i < |inspections|
      invariant 0 <= i <= |inspections|
      invariant fulfilled == Count(inspections[..i], Imported)
      invariant duplicates == Count(inspections[..i], Duplicate)
      invariant invalid == Count(inspections[..i], Invalid)
    {
      var inspection := inspections[i];
      assert inspections[..i + 1][..i] == inspections[..i];
      if inspection.Fulfilled? {
        fulfilled := fulfilled + 1;
      } else {
        if inspection.reason.kind.ValidationError? {
          duplicates := duplicates + 1;
        } else {
          invalid := invalid + 1;
        }
      }
      i := i + 1;
    }
    assert inspections[..i] == inspections;
    TallyConservation(inspections);
    r := Fulfilled(ImportResult(Meta(Stats(fulfilled, duplicates, invalid))));
  }

  // ---------------------------------------------------------------------------
  // Properties of the tally

  /** Every outcome lands in exactly one counter. */
  lemma {:induction false} TallyConservation(outcomes: seq<Settled<Option<Member>>>)
    ensures Total(Tally(outcomes)) == |outcomes|
  {
    if outcomes != [] {
      TallyConservation(outcomes[..|outcomes| - 1]);
    }
  }

  lemma {:induction false} CountAppend(a: seq<Settled<Option<Member>>>, b: seq<Settled<Option<Member>>>, k: Bucket)
    ensures Count(a + b, k) == Count(a, k) + Count(b, k)
  {
    if b == [] {
      assert a + b == a;
    } else {
      CountAppend(a, b[..|b| - 1], k);
      assert (a + b)[..|a + b| - 1] == a + b[..|b| - 1];
    }
  }

  /** Taking one outcome out of a list lowers its counter by one and no other. */
  lemma CountRemove(b: seq<Settled<Option<Member>>>, j: nat, k: Bucket)
    requires j < |b|
    ensures Count(b, k) == Count(b[..j] + b[j + 1..], k) + (if Classify(b[j]) == k then 1 else 0)
  {
    assert b == b[..j] + [b[j]] + b[j + 1..];
    CountAppend(b[..j], [b[j]], k);
    CountAppend(b[..j] + [b[j]], b[j + 1..], k);
    CountAppend(b[..j], b[j + 1..], k);
    assert [b[j]][..0] == [];
  }

  lemma MultisetRemove<T>(b: seq<T>, j: nat)
    requires j < |b|
    ensures multiset(b[..j] + b[j + 1..]) == multiset(b) - multiset{b[j]}
  {
    assert b == b[..j] + [b[j]] + b[j + 1..];
  }

  /** The last element of `a` sits at some position `j` of its permutation `b`, and
      the rests are permutations of each other. */
  lemma MatchLast<T>(a: seq<T>, b: seq<T>) returns (j: nat)
    requires |a| > 0 && multiset(a) == multiset(b)
    ensures j < |b| && b[j] == a[|a| - 1]
    ensures multiset(a[..|a| - 1]) == multiset(b[..j] + b[j + 1..])
  {
    assert a[|a| - 1] in multiset(b);
    j :| 0 <= j < |b| && b[j] == a[|a| - 1];
    MultisetRemove(a, |a| - 1);
    MultisetRemove(b, j);
    assert a[..|a| - 1] == a[..|a| - 1] + a[|a|..];
  }

  /** The counters do not depend on the order in which the outcomes arrive. */
  lemma {:induction false} CountOrderIndependent(a: seq<Settled<Option<Member>>>, b: seq<Settled<Option<Member>>>, k: Bucket)
    requires multiset(a) == multiset(b)
    ensures Count(a, k) == Count(b, k)
    decreases |a|
  {
    if a == [] {
      assert |b| == |multiset(b)| == 0;
    } else {
      var j := MatchLast(a, b);
      CountOrderIndependent(a[..|a| - 1], b[..j] + b[j + 1..], k);
      CountRemove(b, j, k);
    }
  }

  lemma TallyOrderIndependent(a: seq<Settled<Option<Member>>>, b: seq<Settled<Option<Member>>>)
    requires multiset(a) == multiset(b)
    ensures Tally(a) == Tally(b)
  {
    CountOrderIndependent(a, b, Imported);
    CountOrderIndependent(a, b, Duplicate);
    CountOrderIndependent(a, b, Invalid);
  }

  /** When every create succeeds, every row is imported and nothing else is counted. */
  lemma {:induction false} AllFulfilledAllImported(outcomes: seq<Settled<Option<Member>>>)
    requires forall i :: 0 <= i < |outcomes| ==> outcomes[i].Fulfilled?
    ensures Tally(outcomes) == Stats(|outcomes|, 0, 0)
  {
    if outcomes != [] {
      AllFulfilledAllImported(outcomes[..|outcomes| - 1]);
    }
  }

  /** How one row is counted, in terms of the service's answer to its create call:
      a fulfilled answer (even a falsy member) is imported; a rejection is a duplicate
      when it is a uniqueness violation OR already a ValidationError of any kind;
      every other rejection is invalid. */
  lemma RowBucket(rows: seq<Row>, context: Context, service: BatchService, i: nat)
    requires i < |rows|
    ensures var answer := service(i, CreateCall(Some(MemberData(rows[i].email, rows[i].name, map[])), CreateOptions(None, None)));
            Classify(Attempts(rows, context, service)[i]) ==
              if answer.Fulfilled? then Imported
              else if IsUniqueViolation(answer.reason) || answer.reason.kind.ValidationError? then Duplicate
              else Invalid
  {
    ImportCreateCall(rows[i], context);
  }

  /** A create that answers with a falsy member still counts as imported. */
  lemma FalsyMemberImported(rows: seq<Row>, context: Context, service: BatchService, i: nat)
    requires i < |rows|
    requires service(i, CreateRequest(ImportRequest(rows[i], context))) == Fulfilled(None)
    ensures Attempts(rows, context, service)[i] == Fulfilled(None)
    ensures Classify(Attempts(rows, context, service)[i]) == Imported
  {
  }
}
