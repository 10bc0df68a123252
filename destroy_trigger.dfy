/** `DestroyTrigger`: the component attached to a game object whose lifetime
    the bound jobs share. The engine calls its callbacks; the dispatcher reads
    its key and its `IsActivated` flag. */
module DestroyTriggers {

  /** `long.MinValue`, the starting value of the key counter. */
  const LongMinValue: int := -0x8000_0000_0000_0000

  /** The static `_issuedKey` counter, shared by every trigger. */
  class KeyIssuer {
    var issuedKey: int

    constructor ()
      ensures issuedKey == LongMinValue
    {
      issuedKey := LongMinValue;
    }
  }

  class DestroyTrigger {
    /** `Key`: set once, in `Awake`. */
    const key: int
    var isManagedByUnity: bool
    var isActivated: bool

    /** `Awake`: takes the next key, which is larger than every key issued
        before, and starts activated and not yet enabled. */
    constructor Awake(issuer: KeyIssuer)
      modifies issuer
      ensures issuer.issuedKey == old(issuer.issuedKey) + 1
      ensures key == issuer.issuedKey && old(issuer.issuedKey) < key
      ensures isActivated && !isManagedByUnity
    {
      issuer.issuedKey := issuer.issuedKey + 1;
      key := issuer.issuedKey;
      isActivated := true;
      isManagedByUnity := false;
    }

    /** `OnEnable`: the engine now manages the component. */
    method OnEnable()
      modifies this
      ensures isManagedByUnity && isActivated == old(isActivated)
    {
      isManagedByUnity := true;
    }

    /** `OnDisable`: a component the engine never enabled is deactivated when
        disabled; an enabled one keeps its flag. */
    method OnDisable()
      modifies this
      ensures isManagedByUnity == old(isManagedByUnity)
      ensures isActivated <==> old(isActivated) && old(isManagedByUnity)
    {
      if !isManagedByUnity {
        isActivated := false;
      }
    }

    /** `OnDestroy`: the game object is gone, and so is the trigger. */
    method OnDestroy()
      modifies this
      ensures !isActivated && isManagedByUnity == old(isManagedByUnity)
    {
      isActivated := false;
    }
  }
}
