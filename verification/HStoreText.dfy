/** The text form of an hstore: the input parser, a pair of state machines over a C string, against a
    recursive-descent reading of the same syntax. */
module HStoreText {
  import opened Bytes
  import opened Common
  import opened HStoreFormat
  import opened HStorePairs

  const MAX_LEN := 0x3FFF_FFFF

  const QUOTE: byte := 34
  const COMMA: byte := 44
  const EQUALS: byte := 61
  const GREATER: byte := 62
  const SPACE: byte := 32
  const BACKSLASH: byte := 92

  datatype Error = SyntaxError(at: nat) | UnexpectedEnd | TooLong

  /** isspace in the C locale */
  predicate IsSpace(c: byte) { c == SPACE || 9 <= c <= 13 }

  function ToLower(c: byte): byte { if 65 <= c <= 90 then c + 32 else c }

  /** pg_strcasecmp(w, "null") == 0 */
  predicate SpellsNull(w: bytes) {
    |w| == 4 && ToLower(w[0]) == 110 && ToLower(w[1]) == 117 && ToLower(w[2]) == 108 && ToLower(w[3]) == 108
  }

  // ----- the syntax of a word -----

  /** A word and the position after it. */
  datatype Word = Word(text: bytes, next: nat)

  function Cons(c: byte, w: Option<Word>): Option<Word> {
    if w.None? then None else Some(Word([c] + w.value.text, w.value.next))
  }

  /** What follows an opening quote: up to the next quote, a backslash taking the byte after it. */
  function Quoted(t: bytes, p: nat): (w: Option<Word>)
    requires p <= |t|
    ensures w.Some? ==> p < w.value.next <= |t|
    decreases |t| - p
  {
    if p == |t| then None
    else if t[p] == BACKSLASH then (if p + 1 == |t| then None else Cons(t[p + 1], Quoted(t, p + 2)))
    else if t[p] == QUOTE then Some(Word([], p + 1))
    else Cons(t[p], Quoted(t, p + 1))
  }

  /** A bare word from its second byte on: a space ends it and is passed; the end, and in a key `=`,
      in a value `,`, end it too. */
  function Bare(t: bytes, p: nat, ignoreeq: bool): (w: Option<Word>)
    requires p <= |t|
    ensures w.Some? ==> p <= w.value.next <= |t|
    decreases |t| - p
  {
    if p == |t| then Some(Word([], p))
    else if t[p] == BACKSLASH then (if p + 1 == |t| then None else Cons(t[p + 1], Bare(t, p + 2, ignoreeq)))
    else if t[p] == (if ignoreeq then COMMA else EQUALS) then Some(Word([], p))
    else if IsSpace(t[p]) then Some(Word([], p + 1))
    else Cons(t[p], Bare(t, p + 1, ignoreeq))
  }

  datatype Value = NoValue | Bad(error: Error) | Got(word: bytes, next: nat, escaped: bool)

  function Scanned(w: Option<Word>, escaped: bool): Value {
    if w.None? then Bad(UnexpectedEnd) else Got(w.value.text, w.value.next, escaped)
  }

  /** The next word from p, quoted or bare. */
  function ValueAt(t: bytes, p: nat, ignoreeq: bool): (v: Value)
    requires p <= |t|
    ensures v.Got? ==> p < v.next <= |t|
    decreases |t| - p
  {
    if p == |t| then NoValue
    else if t[p] == QUOTE then Scanned(Quoted(t, p + 1), true)
    else if t[p] == EQUALS && !ignoreeq then Bad(SyntaxError(p))
    else if t[p] == BACKSLASH then Scanned(Bare(t, p, ignoreeq), false)
    else if IsSpace(t[p]) then ValueAt(t, p + 1, ignoreeq)
    else Scanned(Cons(t[p], Bare(t, p + 1, ignoreeq)), false)
  }

  // ----- the syntax of a list of pairs -----

  datatype Position = At(next: nat) | End | Wrong(error: Error)

  function Gt(t: bytes, p: nat): (r: Position)
    requires p <= |t|
    ensures r.At? ==> r.next == p + 1 <= |t|
  {
    if p == |t| then Wrong(UnexpectedEnd) else if t[p] == GREATER then At(p + 1) else Wrong(SyntaxError(p))
  }

  /** Spaces, then `=>`. */
  function Arrow(t: bytes, p: nat): (r: Position)
    requires p <= |t|
    ensures r.At? ==> p < r.next <= |t|
    decreases |t| - p
  {
    if p == |t| then Wrong(UnexpectedEnd)
    else if t[p] == EQUALS then Gt(t, p + 1)
    else if IsSpace(t[p]) then Arrow(t, p + 1)
    else Wrong(SyntaxError(p))
  }

  /** Spaces, then a comma or the end. */
  function Delimiter(t: bytes, p: nat): (r: Position)
    requires p <= |t|
    ensures r.At? ==> p < r.next <= |t|
    decreases |t| - p
  {
    if p == |t| then End
    else if t[p] == COMMA then At(p + 1)
    else if IsSpace(t[p]) then Delimiter(t, p + 1)
    else Wrong(SyntaxError(p))
  }

  datatype Parsed = Ok(pairs: seq<Raw>) | Err(error: Error)

  function Before(ps: seq<Raw>, r: Parsed): Parsed { if r.Ok? then Ok(ps + r.pairs) else r }

  /** A bare word that spells null is a null value; a quoted one is a string. */
  function PairOf(key: bytes, word: bytes, escaped: bool): Raw {
    Raw(key, if !escaped && SpellsNull(word) then None else Some(word), true)
  }

  /** The pairs from p on. */
  function Items(t: bytes, p: nat): Parsed
    requires p <= |t|
    decreases |t| - p, 3
  {
    match ValueAt(t, p, false)
    case NoValue => Ok([])
    case Bad(e) => Err(e)
    case Got(key, q, _) => if |key| > MAX_LEN then Err(TooLong) else FromArrow(t, key, Arrow(t, q))
  }

  function FromArrow(t: bytes, key: bytes, at: Position): Parsed
    requires at.At? ==> at.next <= |t|
    decreases if at.At? then |t| - at.next else 0, 2
  {
    match at
    case Wrong(e) => Err(e)
    case End => Err(UnexpectedEnd)
    case At(q) => FromValue(t, key, q)
  }

  function FromValue(t: bytes, key: bytes, p: nat): Parsed
    requires p <= |t|
    decreases |t| - p, 1
  {
    match ValueAt(t, p, true)
    case NoValue => Err(UnexpectedEnd)
    case Bad(e) => Err(e)
    case Got(word, q, escaped) =>
      if |word| > MAX_LEN then Err(TooLong) else Before([PairOf(key, word, escaped)], FromDelimiter(t, Delimiter(t, q)))
  }

  function FromDelimiter(t: bytes, at: Position): Parsed
    requires at.At? ==> at.next <= |t|
    decreases if at.At? then |t| - at.next else 0, 4
  {
    match at
    case Wrong(e) => Err(e)
    case End => Ok([])
    case At(q) => Items(t, q)
  }

  // ----- the state machines -----

  datatype WordState = WaitVal | InVal | InEscVal | WaitEscIn | WaitEscEscIn

  datatype PairState = WKey | WVal | WEq | WGt | WDel

  datatype Outcome = Found | Ended | Failed(error: Error)

  function Joined(word: bytes, w: Option<Word>): Option<Word> {
    if w.None? then None else Some(Word(word + w.value.text, w.value.next))
  }

  /** What get_val still has to deliver in a given state. */
  function Resume(st: WordState, t: bytes, p: nat, ignoreeq: bool, word: bytes): Value
    requires p <= |t|
  {
    match st
    case WaitVal => ValueAt(t, p, ignoreeq)
    case InVal => Scanned(Joined(word, Bare(t, p, ignoreeq)), false)
    case InEscVal => Scanned(Joined(word, Quoted(t, p)), true)
    case WaitEscIn => Scanned(Joined(word, if p == |t| then None else Cons(t[p], Bare(t, p + 1, ignoreeq))), false)
    case WaitEscEscIn => Scanned(Joined(word, if p == |t| then None else Cons(t[p], Quoted(t, p + 1))), true)
  }

  lemma JoinedCons(word: bytes, c: byte, w: Option<Word>)
    ensures Joined(word, Cons(c, w)) == Joined(word + [c], w)
  {
    if w.Some? { assert word + ([c] + w.value.text) == word + [c] + w.value.text; }
  }

  lemma JoinedNone(w: Option<Word>)
    ensures Joined([], w) == w
  {
    if w.Some? { assert [] + w.value.text == w.value.text; }
  }

  lemma OnWaitVal(t: bytes, p: nat, ie: bool)
    requires p <= |t|
    ensures Resume(WaitVal, t, p, ie, []) ==
            if p == |t| then NoValue
            else if t[p] == QUOTE then Resume(InEscVal, t, p + 1, ie, [])
            else if t[p] == EQUALS && !ie then Bad(SyntaxError(p))
            else if t[p] == BACKSLASH then Resume(WaitEscIn, t, p + 1, ie, [])
            else if IsSpace(t[p]) then Resume(WaitVal, t, p + 1, ie, [])
            else Resume(InVal, t, p + 1, ie, [t[p]])
  {
    if p < |t| {
      JoinedNone(Quoted(t, p + 1));
      JoinedNone(Bare(t, p, ie));
      JoinedNone(Cons(t[p], Bare(t, p + 1, ie)));
      JoinedCons([], t[p], Bare(t, p + 1, ie));
    }
  }

  lemma OnInVal(t: bytes, p: nat, ie: bool, w: bytes)
    requires p <= |t|
    ensures Resume(InVal, t, p, ie, w) ==
            if p == |t| then Got(w, p, false)
            else if t[p] == BACKSLASH then Resume(WaitEscIn, t, p + 1, ie, w)
            else if t[p] == (if ie then COMMA else EQUALS) then Got(w, p, false)
            else if IsSpace(t[p]) then Got(w, p + 1, false)
            else Resume(InVal, t, p + 1, ie, w + [t[p]])
  {
    if p < |t| { JoinedCons(w, t[p], Bare(t, p + 1, ie)); }
  }

  lemma OnInEscVal(t: bytes, p: nat, ie: bool, w: bytes)
    requires p <= |t|
    ensures Resume(InEscVal, t, p, ie, w) ==
            if p == |t| then Bad(UnexpectedEnd)
            else if t[p] == BACKSLASH then Resume(WaitEscEscIn, t, p + 1, ie, w)
            else if t[p] == QUOTE then Got(w, p + 1, true)
            else Resume(InEscVal, t, p + 1, ie, w + [t[p]])
  {
    if p < |t| { JoinedCons(w, t[p], Quoted(t, p + 1)); }
  }

  lemma OnEscape(t: bytes, p: nat, ie: bool, w: bytes)
    requires p <= |t|
    ensures Resume(WaitEscIn, t, p, ie, w) ==
            if p == |t| then Bad(UnexpectedEnd) else Resume(InVal, t, p + 1, ie, w + [t[p]])
    ensures Resume(WaitEscEscIn, t, p, ie, w) ==
            if p == |t| then Bad(UnexpectedEnd) else Resume(InEscVal, t, p + 1, ie, w + [t[p]])
  {
    if p < |t| {
      JoinedCons(w, t[p], Bare(t, p + 1, ie));
      JoinedCons(w, t[p], Quoted(t, p + 1));
    }
  }

  /** The outcome of get_val, its word and its last position, for what the syntax has there. */
  predicate Delivered(r: Outcome, escaped: bool, word: bytes, ptr: nat, v: Value) {
    match v
    case NoValue => r == Ended
    case Bad(e) => r == Failed(e)
    case Got(w, next, esc) => r == Found && word == w && ptr + 1 == next && escaped == esc
  }

  /** What parse_hstore still has to deliver in a given state, `key` being the key in hand. */
  function Remaining(st: PairState, t: bytes, p: nat, key: bytes): Parsed
    requires p <= |t|
  {
    match st
    case WKey => Items(t, p)
    case WEq => FromArrow(t, key, Arrow(t, p))
    case WGt => FromArrow(t, key, Gt(t, p))
    case WVal => FromValue(t, key, p)
    case WDel => FromDelimiter(t, Delimiter(t, p))
  }

  lemma OnWords(t: bytes, p: nat, key: bytes)
    requires p <= |t|
    ensures Remaining(WKey, t, p, key) ==
            match ValueAt(t, p, false)
            case NoValue => Ok([])
            case Bad(e) => Err(e)
            case Got(w, q, _) => if |w| > MAX_LEN then Err(TooLong) else Remaining(WEq, t, q, w)
    ensures Remaining(WVal, t, p, key) ==
            match ValueAt(t, p, true)
            case NoValue => Err(UnexpectedEnd)
            case Bad(e) => Err(e)
            case Got(w, q, esc) =>
              if |w| > MAX_LEN then Err(TooLong) else Before([PairOf(key, w, esc)], Remaining(WDel, t, q, key))
  {
  }

  lemma OnMarks(t: bytes, p: nat, key: bytes)
    requires p <= |t|
    ensures Remaining(WEq, t, p, key) ==
            if p == |t| then Err(UnexpectedEnd)
            else if t[p] == EQUALS then Remaining(WGt, t, p + 1, key)
            else if IsSpace(t[p]) then Remaining(WEq, t, p + 1, key)
            else Err(SyntaxError(p))
    ensures Remaining(WGt, t, p, key) ==
            if p == |t| then Err(UnexpectedEnd)
            else if t[p] == GREATER then Remaining(WVal, t, p + 1, key)
            else Err(SyntaxError(p))
    ensures Remaining(WDel, t, p, key) ==
            if p == |t| then Ok([])
            else if t[p] == COMMA then Remaining(WKey, t, p + 1, key)
            else if IsSpace(t[p]) then Remaining(WDel, t, p + 1, key)
            else Err(SyntaxError(p))
  {
  }

  lemma BeforeBefore(a: seq<Raw>, b: seq<Raw>, r: Parsed)
    ensures Before(a, Before(b, r)) == Before(a + b, r)
  {
    if r.Ok? { assert a + (b + r.pairs) == a + b + r.pairs; }
  }

  /** HSParser: the input, the position in it, the word being collected, and the pairs so far. */
  class Parser {
    const text: bytes
    var ptr: nat
    var word: bytes
    var key: bytes
    var pairs: seq<Raw>

    constructor (begin: bytes)
      ensures text == begin && ptr == 0 && pairs == []
    {
      text := begin;
      ptr, word, key, pairs := 0, [], [], [];
    }

    /** The byte at ptr, zero at the end of the string. */
    function Current(): byte
      requires ptr <= |text|
      reads this
    {
      if ptr < |text| then text[ptr] else 0
    }

    /** One turn of get_val's loop up to its step to the next byte. */
    method GetValStep(st: WordState, ignoreeq: bool, escaped: bool)
      returns (next: WordState, nowEscaped: bool, done: bool, r: Outcome)
      requires 0 !in text && ptr <= |text| && (st == WaitVal ==> word == []) && (st == InVal ==> 0 < ptr)
      requires escaped <==> st in {InEscVal, WaitEscEscIn}
      modifies this`ptr, this`word
      ensures !done ==> old(ptr) == ptr < |text| && (next == WaitVal ==> word == [])
      ensures !done ==> (nowEscaped <==> next in {InEscVal, WaitEscEscIn})
      ensures !done ==> Resume(next, text, ptr + 1, ignoreeq, word) == Resume(st, text, old(ptr), ignoreeq, old(word))
      ensures done ==> Delivered(r, nowEscaped, word, ptr, Resume(st, text, old(ptr), ignoreeq, old(word)))
    {
      hide Resume;
      next, nowEscaped, done, r := st, escaped, false, Found;
      var c := Current();
      match st {
        case WaitVal =>
          OnWaitVal(text, ptr, ignoreeq);
          if c == QUOTE {
            nowEscaped, next := true, InEscVal;
          } else if c == 0 {
            done, r := true, Ended;
          } else if c == EQUALS && !ignoreeq {
            done, r := true, Failed(SyntaxError(ptr));
          } else if c == BACKSLASH {
            next := WaitEscIn;
          } else if !IsSpace(c) {
            word := [c];
            next := InVal;
          }
        case InVal =>
          OnInVal(text, ptr, ignoreeq, word);
          if c == BACKSLASH {
            next := WaitEscIn;
          } else if (c == EQUALS && !ignoreeq) || (c == COMMA && ignoreeq) {
            ptr := ptr - 1;
            done := true;
          } else if IsSpace(c) {
            done := true;
          } else if c == 0 {
            ptr := ptr - 1;
            done := true;
          } else {
            word := word + [c];
          }
        case InEscVal =>
          OnInEscVal(text, ptr, ignoreeq, word);
          if c == BACKSLASH {
            next := WaitEscEscIn;
          } else if c == QUOTE {
            done := true;
          } else if c == 0 {
            done, r := true, Failed(UnexpectedEnd);
          } else {
            word := word + [c];
          }
        case _ =>
          OnEscape(text, ptr, ignoreeq, word);
          if c == 0 {
            done, r := true, Failed(UnexpectedEnd);
          } else {
            word := word + [c];
            next := if st == WaitEscIn then InVal else InEscVal;
          }
      }
    }

    /** get_val: the word that the syntax has at ptr. It never reads past the end of the string. */
    method GetVal(ignoreeq: bool) returns (r: Outcome, escaped: bool)
      requires 0 !in text && ptr <= |text|
      modifies this`ptr, this`word
      ensures Delivered(r, escaped, word, ptr, ValueAt(text, old(ptr), ignoreeq))
    {
      hide ValueAt;
      var st, done := WaitVal, false;
      word, escaped := [], false;
      ghost var v := ValueAt(text, ptr, ignoreeq);
      while true
        invariant ptr <= |text| && (st == WaitVal ==> word == []) && (st == InVal ==> 0 < ptr)
        invariant escaped <==> st in {InEscVal, WaitEscEscIn}
        invariant Resume(st, text, ptr, ignoreeq, word) == v
        decreases |text| - ptr
      {
        st, escaped, done, r := GetValStep(st, ignoreeq, escaped);
        if done { return; }
        ptr := ptr + 1;
      }
    }

    /** One turn of parse_hstore's loop up to its step to the next byte; `done` is a return or an error. */
    method ParseStep(st: PairState) returns (next: PairState, done: bool, r: Option<Error>)
      requires 0 !in text && ptr <= |text|
      modifies this`ptr, this`word, this`key, this`pairs
      ensures !done ==> old(ptr) <= ptr < |text|
      ensures var due := Before(old(pairs), Remaining(st, text, old(ptr), old(key)));
              if done then due == (if r == None then Ok(pairs) else Err(r.value))
              else due == Before(pairs, Remaining(next, text, ptr + 1, key))
    {
      hide Remaining, ValueAt, PairOf;
      next, done, r := st, false, None;
      match st {
        case WKey =>
          OnWords(text, ptr, key);
          var found, _ := GetVal(false);
          if found != Found { return next, true, if found == Ended then None else Some(found.error); }
          if |word| > MAX_LEN { return next, true, Some(TooLong); }
          key := word;
          next := WEq;
        case WVal =>
          OnWords(text, ptr, key);
          var found, escaped := GetVal(true);
          if found != Found { return next, true, Some(if found == Ended then UnexpectedEnd else found.error); }
          if |word| > MAX_LEN { return next, true, Some(TooLong); }
          BeforeBefore(pairs, [PairOf(key, word, escaped)], Remaining(WDel, text, ptr + 1, key));
          pairs := pairs + [PairOf(key, word, escaped)];
          next := WDel;
        case _ =>
          next, done, r := MarkStep(st);
      }
    }

    /** The turns that look for =>, a comma or the end. */
    method MarkStep(st: PairState) returns (next: PairState, done: bool, r: Option<Error>)
      requires 0 !in text && ptr <= |text| && st in {WEq, WGt, WDel}
      ensures !done ==> ptr < |text| && Remaining(next, text, ptr + 1, key) == Remaining(st, text, ptr, key)
      ensures done ==> Remaining(st, text, ptr, key) == if r == None then Ok([]) else Err(r.value)
    {
      hide Remaining;
      OnMarks(text, ptr, key);
      next, done, r := st, false, None;
      var c := Current();
      match st {
        case WEq =>
          if c == EQUALS {
            next := WGt;
          } else if c == 0 {
            done, r := true, Some(UnexpectedEnd);
          } else if !IsSpace(c) {
            done, r := true, Some(SyntaxError(ptr));
          }
        case WGt =>
          if c == GREATER {
            next := WVal;
          } else if c == 0 {
            done, r := true, Some(UnexpectedEnd);
          } else {
            done, r := true, Some(SyntaxError(ptr));
          }
        case WDel =>
          if c == COMMA {
            next := WKey;
          } else if c == 0 {
            done := true;
          } else if !IsSpace(c) {
            done, r := true, Some(SyntaxError(ptr));
          }
      }
    }

    /** parse_hstore: the pairs, or the error, that the syntax assigns to the text. */
    method ParseHStore() returns (r: Option<Error>)
      requires 0 !in text && ptr == 0 && pairs == []
      modifies this
      ensures Items(text, 0) == if r == None then Ok(pairs) else Err(r.value)
    {
      hide Remaining;
      var st, done := WKey, false;
      StartRemaining(text);
      while true
        invariant ptr <= |text| && Before(pairs, Remaining(st, text, ptr, key)) == Items(text, 0)
        decreases |text| - ptr
      {
        st, done, r := ParseStep(st);
        if done { return; }
        ptr := ptr + 1;
      }
    }
  }

  lemma StartRemaining(t: bytes)
    ensures forall key :: Before([], Remaining(WKey, t, 0, key)) == Items(t, 0)
  {
  }
}
