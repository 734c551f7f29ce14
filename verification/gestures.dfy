/** The backend's `GestureTag` enum: the 24 gesture constants, their names,
    and `GestureTag.valueOf`. */
module Gestures {
  import opened Wrappers

  datatype GestureTag =
    | RAISED_HAND | PUSHING | PUNCHING | SLAPPING | GRABBING | CHASING
    | BLOCKING_WAY | INTIMIDATING_POSTURE
    | STARING | LOITERING | FOLLOWING | HOVERING | POINTING
    | WAVING_FOR_HELP | HANDS_UP | CALLING_PHONE | RUNNING_AWAY | FALLING
    | HAND_SIGNAL_SOS
    | WALKING | STANDING | SITTING | TALKING | GESTURING_CASUALLY

  /** `GestureTag.name()`: the constant's identifier. */
  function Name(t: GestureTag): string {
    match t
    case RAISED_HAND => "RAISED_HAND"
    case PUSHING => "PUSHING"
    case PUNCHING => "PUNCHING"
    case SLAPPING => "SLAPPING"
    case GRABBING => "GRABBING"
    case CHASING => "CHASING"
    case BLOCKING_WAY => "BLOCKING_WAY"
    case INTIMIDATING_POSTURE => "INTIMIDATING_POSTURE"
    case STARING => "STARING"
    case LOITERING => "LOITERING"
    case FOLLOWING => "FOLLOWING"
    case HOVERING => "HOVERING"
    case POINTING => "POINTING"
    case WAVING_FOR_HELP => "WAVING_FOR_HELP"
    case HANDS_UP => "HANDS_UP"
    case CALLING_PHONE => "CALLING_PHONE"
    case RUNNING_AWAY => "RUNNING_AWAY"
    case FALLING => "FALLING"
    case HAND_SIGNAL_SOS => "HAND_SIGNAL_SOS"
    case WALKING => "WALKING"
    case STANDING => "STANDING"
    case SITTING => "SITTING"
    case TALKING => "TALKING"
    case GESTURING_CASUALLY => "GESTURING_CASUALLY"
  }

  /** `GestureTag.values()`, in declaration order. */
  const AllTags: seq<GestureTag> := [
    RAISED_HAND, PUSHING, PUNCHING, SLAPPING, GRABBING, CHASING,
    BLOCKING_WAY, INTIMIDATING_POSTURE,
    STARING, LOITERING, FOLLOWING, HOVERING, POINTING,
    WAVING_FOR_HELP, HANDS_UP, CALLING_PHONE, RUNNING_AWAY, FALLING,
    HAND_SIGNAL_SOS,
    WALKING, STANDING, SITTING, TALKING, GESTURING_CASUALLY
  ]

  /** `GestureTag.valueOf(s)`: the constant whose name is exactly `s`, or
      nothing where Java throws `IllegalArgumentException`. */
  function ValueOf(s: string): Option<GestureTag> {
    Lookup(s, AllTags)
  }

  /** The first of `tags` named `s`. */
  function Lookup(s: string, tags: seq<GestureTag>): Option<GestureTag>
  {
    if tags == [] then None
    else if Name(tags[0]) == s then Some(tags[0])
    else Lookup(s, tags[1..])
  }

  lemma {:induction false} LookupSpec(s: string, tags: seq<GestureTag>)
    ensures Lookup(s, tags).Some? ==> Name(Lookup(s, tags).value) == s && Lookup(s, tags).value in tags
    ensures Lookup(s, tags).None? ==> forall t :: t in tags ==> Name(t) != s
  {
    if tags != [] {
      LookupSpec(s, tags[1..]);
    }
  }

  /** A name's length and first two characters, which already tell the 24
      names apart. */
  function Signature(s: string): (int, char, char)
    requires |s| >= 2
  {
    (|s|, s[0], s[1])
  }

  /** The constant with a given signature. */
  function FromSignature(k: (int, char, char)): Option<GestureTag> {
    match k
    case (11, 'R', 'A') => Some(RAISED_HAND)
    case (7, 'P', 'U') => Some(PUSHING)
    case (8, 'P', 'U') => Some(PUNCHING)
    case (8, 'S', 'L') => Some(SLAPPING)
    case (8, 'G', 'R') => Some(GRABBING)
    case (7, 'C', 'H') => Some(CHASING)
    case (12, 'B', 'L') => Some(BLOCKING_WAY)
    case (20, 'I', 'N') => Some(INTIMIDATING_POSTURE)
    case (7, 'S', 'T') => Some(STARING)
    case (9, 'L', 'O') => Some(LOITERING)
    case (9, 'F', 'O') => Some(FOLLOWING)
    case (8, 'H', 'O') => Some(HOVERING)
    case (8, 'P', 'O') => Some(POINTING)
    case (15, 'W', 'A') => Some(WAVING_FOR_HELP)
    case (8, 'H', 'A') => Some(HANDS_UP)
    case (13, 'C', 'A') => Some(CALLING_PHONE)
    case (12, 'R', 'U') => Some(RUNNING_AWAY)
    case (7, 'F', 'A') => Some(FALLING)
    case (15, 'H', 'A') => Some(HAND_SIGNAL_SOS)
    case (7, 'W', 'A') => Some(WALKING)
    case (8, 'S', 'T') => Some(STANDING)
    case (7, 'S', 'I') => Some(SITTING)
    case (7, 'T', 'A') => Some(TALKING)
    case (18, 'G', 'E') => Some(GESTURING_CASUALLY)
    case _ => None
  }

  /** A constant is recovered from its name's signature. */
  lemma SignatureOfName(t: GestureTag)
    ensures |Name(t)| >= 2 && FromSignature(Signature(Name(t))) == Some(t)
  {
    match t
    case RAISED_HAND | PUSHING | PUNCHING => SignatureOfNamePart1(t);
    case SLAPPING | GRABBING | CHASING => SignatureOfNamePart2(t);
    case BLOCKING_WAY | INTIMIDATING_POSTURE | STARING => SignatureOfNamePart3(t);
    case LOITERING | FOLLOWING | HOVERING => SignatureOfNamePart4(t);
    case POINTING | WAVING_FOR_HELP | HANDS_UP => SignatureOfNamePart5(t);
    case CALLING_PHONE | RUNNING_AWAY | FALLING => SignatureOfNamePart6(t);
    case HAND_SIGNAL_SOS | WALKING | STANDING => SignatureOfNamePart7(t);
    case SITTING | TALKING | GESTURING_CASUALLY => SignatureOfNamePart8(t);
  }

  lemma SignatureOfNamePart1(t: GestureTag)
    requires t.RAISED_HAND? || t.PUSHING? || t.PUNCHING?
    ensures |Name(t)| >= 2 && FromSignature(Signature(Name(t))) == Some(t)
  {
  }

  lemma SignatureOfNamePart2(t: GestureTag)
    requires t.SLAPPING? || t.GRABBING? || t.CHASING?
    ensures |Name(t)| >= 2 && FromSignature(Signature(Name(t))) == Some(t)
  {
  }

  lemma SignatureOfNamePart3(t: GestureTag)
    requires t.BLOCKING_WAY? || t.INTIMIDATING_POSTURE? || t.STARING?
    ensures |Name(t)| >= 2 && FromSignature(Signature(Name(t))) == Some(t)
  {
  }

  lemma SignatureOfNamePart4(t: GestureTag)
    requires t.LOITERING? || t.FOLLOWING? || t.HOVERING?
    ensures |Name(t)| >= 2 && FromSignature(Signature(Name(t))) == Some(t)
  {
  }

  lemma SignatureOfNamePart5(t: GestureTag)
    requires t.POINTING? || t.WAVING_FOR_HELP? || t.HANDS_UP?
    ensures |Name(t)| >= 2 && FromSignature(Signature(Name(t))) == Some(t)
  {
  }

  lemma SignatureOfNamePart6(t: GestureTag)
    requires t.CALLING_PHONE? || t.RUNNING_AWAY? || t.FALLING?
    ensures |Name(t)| >= 2 && FromSignature(Signature(Name(t))) == Some(t)
  {
  }

  lemma SignatureOfNamePart7(t: GestureTag)
    requires t.HAND_SIGNAL_SOS? || t.WALKING? || t.STANDING?
    ensures |Name(t)| >= 2 && FromSignature(Signature(Name(t))) == Some(t)
  {
  }

  lemma SignatureOfNamePart8(t: GestureTag)
    requires t.SITTING? || t.TALKING? || t.GESTURING_CASUALLY?
    ensures |Name(t)| >= 2 && FromSignature(Signature(Name(t))) == Some(t)
  {
  }

  lemma NameNonEmpty(t: GestureTag)
    ensures Name(t) != []
  {
  }

  /** Different constants have different names. */
  lemma NameInjective(t: GestureTag, u: GestureTag)
    ensures Name(t) == Name(u) <==> t == u
  {
    SignatureOfName(t);
    SignatureOfName(u);
  }

  /** Every constant appears in `values()`. */
  lemma AllTagsComplete(t: GestureTag)
    ensures t in AllTags
  {
  }

  /** `valueOf` returns the constant named by its argument, and fails exactly
      on texts that are no constant's name. */
  lemma ValueOfSpec(s: string)
    ensures ValueOf(s).Some? ==> Name(ValueOf(s).value) == s
    ensures ValueOf(s).None? <==> forall t :: Name(t) != s
  {
    LookupSpec(s, AllTags);
    forall t | Name(t) == s
      ensures ValueOf(s).Some?
    {
      AllTagsComplete(t);
    }
  }

  /** `valueOf(name())` is the identity. */
  lemma ValueOfName(t: GestureTag)
    ensures ValueOf(Name(t)) == Some(t)
  {
    ValueOfSpec(Name(t));
    var r := ValueOf(Name(t));
    NameInjective(t, r.value);
  }
}
