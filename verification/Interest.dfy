/**
Event interest: `src/wte/what.h`, and how a handler's interest is kept (`src/libevent_event_base.cc`).
`repaired` false is the code as it stands, true is what its comments say.
*/
module Interest {
  datatype What = NONE | READ | WRITE | READ_WRITE

  predicate IsRead(w: What) {
    w == READ || w == READ_WRITE
  }

  predicate IsWrite(w: What) {
    w == WRITE || w == READ_WRITE
  }

  function EnsureWrite(w: What, repaired: bool): What {
    match w
    case READ => READ_WRITE
    case READ_WRITE => if repaired then READ_WRITE else WRITE
    case _ => WRITE
  }

  function EnsureRead(w: What, repaired: bool): What {
    match w
    case WRITE => READ_WRITE
    case READ_WRITE => if repaired then READ_WRITE else READ
    case _ => READ
  }

  function RemoveWrite(w: What): What {
    match w
    case READ_WRITE => READ
    case READ => READ
    case _ => NONE
  }

  // The value with exactly these bits.
  function OfBits(read: bool, write: bool): (w: What)
    ensures IsRead(w) == read && IsWrite(w) == write
  {
    if read && write then READ_WRITE else if read then READ else if write then WRITE else NONE
  }

  // `what | WRITE` and `what | READ`, as the comments have it, exactly unless both bits are set already;
  // removing WRITE is always right.
  lemma EnsureExact(w: What, repaired: bool)
    ensures EnsureWrite(w, repaired) == OfBits(IsRead(w), true) <==> repaired || w != READ_WRITE
    ensures EnsureRead(w, repaired) == OfBits(true, IsWrite(w)) <==> repaired || w != READ_WRITE
    ensures IsWrite(EnsureWrite(w, repaired)) && IsRead(EnsureRead(w, repaired))
    ensures RemoveWrite(w) == OfBits(IsRead(w), false)
  {
  }

  // A handler as its base sees it: the implementation is made on first use and the flags outlive unregistering.
  datatype Handler = Unused | Made(registered: bool, flags: What)

  // A registered handler watches something.
  predicate Sound(h: Handler) {
    h.Made? && h.registered ==> h.flags != NONE
  }

  function Watched(h: Handler): What {
    if h.Made? && h.registered then h.flags else NONE
  }

  function UnregisterHandler(h: Handler): Handler {
    if h.Made? && h.registered then h.(registered := false) else h
  }

  // registerHandlerInternal for a handler that is not internal.
  function RegisterHandler(h: Handler, w: What): Handler {
    if h.Made? && w == Watched(h) then h
    else if w == NONE then UnregisterHandler(h)
    else Made(true, w)
  }

  // Whatever was registered before, what is watched afterwards is what was asked for, and asking for
  // nothing is unregistering.
  lemma RegisterSetsInterest(h: Handler, w: What)
    requires Sound(h)
    ensures Sound(RegisterHandler(h, w)) && Sound(UnregisterHandler(h))
    ensures Watched(RegisterHandler(h, w)) == w
    ensures Watched(UnregisterHandler(h)) == NONE
    ensures RegisterHandler(h, w).Made? && RegisterHandler(h, w).registered <==> w != NONE
  {
  }
}
