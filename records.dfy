/** The records extracted from a plenary protocol and their `to_dict` projections, which are
    what is written out as JSON. */
module Records {
  import opened Wrappers

  /** A JSON-like value as produced by `to_dict`; a `Dict` keeps its keys in insertion order,
      as a Python `dict` does. */
  datatype Value =
    | Null
    | Str(s: string)
    | Int(i: int)
    | List(items: seq<Value>)
    | Dict(entries: seq<(string, Value)>)

  /** The value stored under `key`, if any (the first one, were a key repeated). */
  function Lookup(entries: seq<(string, Value)>, key: string): Option<Value>
  {
    if |entries| == 0 then None
    else if entries[0].0 == key then Some(entries[0].1)
    else Lookup(entries[1..], key)
  }

  /** A key stored once, or at least not before position `k`, is found at `k`. */
  lemma {:induction false} LookupAt(entries: seq<(string, Value)>, k: nat)
    requires k < |entries|
    requires forall j :: 0 <= j < k ==> entries[j].0 != entries[k].0
    ensures Lookup(entries, entries[k].0) == Some(entries[k].1)
    decreases k
  {
    if k > 0 {
      LookupAt(entries[1..], k - 1);
    }
  }

  function Keys(entries: seq<(string, Value)>): seq<string>
  {
    seq(|entries|, k requires 0 <= k < |entries| => entries[k].0)
  }

  function OptionalStr(o: Option<string>): Value
  {
    match o
    case None => Null
    case Some(s) => Str(s)
  }

  function OptionalInt(o: Option<int>): Value
  {
    match o
    case None => Null
    case Some(n) => Int(n)
  }

  datatype PlenarySpeaker = PlenarySpeaker(forename: string, surname: string, party: Option<string>, role: Option<string>)
  {
    /** The speaker's `__dict__`: its fields in declaration order. */
    function ToDict(): (v: Value)
      ensures v.Dict? && Keys(v.entries) == ["forename", "surname", "party", "role"]
    {
      Dict([("forename", Str(forename)), ("surname", Str(surname)),
            ("party", OptionalStr(party)), ("role", OptionalStr(role))])
    }
  }

  datatype PlenarySpeech = PlenarySpeech(speechId: string, speaker: PlenarySpeaker, text: string)
  {
    function ToDict(): (v: Value)
      ensures v.Dict? && Keys(v.entries) == ["id", "speaker", "text"]
    {
      Dict([("id", Str(speechId)), ("speaker", speaker.ToDict()), ("text", Str(text))])
    }
  }

  datatype PlenaryDebate = PlenaryDebate(date: Option<string>, period: string, number: Option<int>, speeches: seq<PlenarySpeech>)
  {
    function ToDict(): (v: Value)
      ensures v.Dict? && Keys(v.entries) == ["date", "period", "number", "speeches"]
      ensures v.entries[3].1.List? && |v.entries[3].1.items| == |speeches|
      ensures forall k :: 0 <= k < |speeches| ==> v.entries[3].1.items[k] == speeches[k].ToDict()
    {
      Dict([("date", OptionalStr(date)), ("period", Str(period)), ("number", OptionalInt(number)),
            ("speeches", List(seq(|speeches|, k requires 0 <= k < |speeches| => speeches[k].ToDict())))])
    }
  }

  /** Reading the records back from their dictionaries: the inverse of `ToDict`. */

  function StrField(entries: seq<(string, Value)>, key: string): Option<string>
  {
    match Lookup(entries, key)
    case Some(Str(s)) => Some(s)
    case _ => None
  }

  /** A field that holds either `Null` or a value of the expected kind. */
  function OptionalStrField(entries: seq<(string, Value)>, key: string): Option<Option<string>>
  {
    match Lookup(entries, key)
    case Some(Null) => Some(None)
    case Some(Str(s)) => Some(Some(s))
    case _ => None
  }

  function OptionalIntField(entries: seq<(string, Value)>, key: string): Option<Option<int>>
  {
    match Lookup(entries, key)
    case Some(Null) => Some(None)
    case Some(Int(n)) => Some(Some(n))
    case _ => None
  }

  function SpeakerFromDict(v: Value): Option<PlenarySpeaker>
  {
    if !v.Dict? then None
    else
      var e := v.entries;
      match (StrField(e, "forename"), StrField(e, "surname"),
             OptionalStrField(e, "party"), OptionalStrField(e, "role"))
      case (Some(f), Some(s), Some(p), Some(r)) => Some(PlenarySpeaker(f, s, p, r))
      case _ => None
  }

  function SpeechFromDict(v: Value): Option<PlenarySpeech>
  {
    if !v.Dict? then None
    else
      var e := v.entries;
      match (StrField(e, "id"), Lookup(e, "speaker"), StrField(e, "text"))
      case (Some(id), Some(sp), Some(text)) =>
        (match SpeakerFromDict(sp)
         case Some(speaker) => Some(PlenarySpeech(id, speaker, text))
         case None => None)
      case _ => None
  }

  function SpeechesFromList(items: seq<Value>): Option<seq<PlenarySpeech>>
  {
    if |items| == 0 then Some([])
    else
      match (SpeechFromDict(items[0]), SpeechesFromList(items[1..]))
      case (Some(s), Some(rest)) => Some([s] + rest)
      case _ => None
  }

  function DebateFromDict(v: Value): Option<PlenaryDebate>
  {
    if !v.Dict? then None
    else
      var e := v.entries;
      match (OptionalStrField(e, "date"), StrField(e, "period"),
             OptionalIntField(e, "number"), Lookup(e, "speeches"))
      case (Some(date), Some(period), Some(number), Some(List(items))) =>
        (match SpeechesFromList(items)
         case Some(speeches) => Some(PlenaryDebate(date, period, number, speeches))
         case None => None)
      case _ => None
  }

  lemma SpeakerRoundTrip(sp: PlenarySpeaker)
    ensures SpeakerFromDict(sp.ToDict()) == Some(sp)
  {
    var e := sp.ToDict().entries;
    LookupAt(e, 0);
    LookupAt(e, 1);
    LookupAt(e, 2);
    LookupAt(e, 3);
  }

  lemma SpeechRoundTrip(s: PlenarySpeech)
    ensures SpeechFromDict(s.ToDict()) == Some(s)
  {
    var e := s.ToDict().entries;
    LookupAt(e, 0);
    LookupAt(e, 1);
    LookupAt(e, 2);
    SpeakerRoundTrip(s.speaker);
  }

  lemma {:induction false} SpeechesRoundTrip(speeches: seq<PlenarySpeech>)
    ensures SpeechesFromList(seq(|speeches|, k requires 0 <= k < |speeches| => speeches[k].ToDict()))
            == Some(speeches)
    decreases |speeches|
  {
    var items := seq(|speeches|, k requires 0 <= k < |speeches| => speeches[k].ToDict());
    if |speeches| > 0 {
      SpeechRoundTrip(speeches[0]);
      var tail := speeches[1..];
      SpeechesRoundTrip(tail);
      assert items[1..] == seq(|tail|, k requires 0 <= k < |tail| => tail[k].ToDict());
      assert speeches == [speeches[0]] + tail;
    }
  }

  lemma DebateFields(d: PlenaryDebate)
    ensures var e := d.ToDict().entries;
      && OptionalStrField(e, "date") == Some(d.date)
      && StrField(e, "period") == Some(d.period)
      && OptionalIntField(e, "number") == Some(d.number)
      && Lookup(e, "speeches") == Some(d.ToDict().entries[3].1)
  {
    var e := d.ToDict().entries;
    LookupAt(e, 0);
    LookupAt(e, 1);
    LookupAt(e, 2);
    LookupAt(e, 3);
  }

  /** The dictionary written for a debate determines the debate: nothing is lost, and the
      speeches come back in their order. */
  lemma DebateRoundTrip(d: PlenaryDebate)
    ensures DebateFromDict(d.ToDict()) == Some(d)
  {
    var v := d.ToDict();
    DebateFields(d);
    var speeches := d.speeches;
    var items := seq(|speeches|, k requires 0 <= k < |speeches| => speeches[k].ToDict());
    assert v.entries[3].1 == List(items);
    SpeechesRoundTrip(speeches);
  }
}
