/** The options a builder hands to the manager. */
module Options {

  /**
   * `SCKeychainOperationBuilderOptions`: whether items may be read only while the
   * application is in the foreground, and whether they may sync to other devices.
   */
  class BuilderOptions {
    var onlyInForeground: bool
    var icloudSync: bool

    /** The declared defaults: foreground only, no sync. */
    constructor ()
      ensures onlyInForeground && !icloudSync
    {
      onlyInForeground := true;
      icloudSync := false;
    }
  }
}
