/**
 * The server configuration (config.go): the records it is made of, the
 * default configuration and the validation that accepts or rejects one.
 * A duration is a whole number of nanoseconds, as Go's time.Duration.
 */
module Configuration {
  import opened Wrappers

  const Second: int := 1_000_000_000
  const Minute: int := 60 * Second
  const Hour: int := 60 * Minute
  const MiB: int := 1024 * 1024

  datatype ServerConfig = ServerConfig(
    host: string,
    port: int,
    httpPort: int,
    readTimeout: int,
    writeTimeout: int,
    maxConnections: int,
    enableHttp: bool,
    enableTls: bool,
    tlsCertFile: string,
    tlsKeyFile: string,
    enableCors: bool,
    corsOrigins: seq<string>)

  datatype CacheConfig = CacheConfig(
    maxMemory: int,
    defaultTtl: int,
    cleanupInterval: int,
    evictionPolicy: string,
    enableCompression: bool,
    compressionLevel: int,
    shardCount: int,
    enableMetrics: bool)

  datatype ClusterConfig = ClusterConfig(
    enabled: bool,
    nodeId: string,
    seeds: seq<string>,
    port: int,
    gossipInterval: int,
    probeInterval: int,
    probeTimeout: int,
    suspicionMult: int,
    reconnectInterval: int,
    reconnectTimeout: int)

  datatype StorageConfig = StorageConfig(
    enabled: bool,
    kind: string,
    path: string,
    syncInterval: int,
    maxFileSize: int,
    compression: bool,
    encryption: bool,
    encryptionKey: string,
    backupEnabled: bool,
    backupInterval: int,
    backupRetention: int)

  /** The histogram buckets (floating point) are not part of this model. */
  datatype MetricsConfig = MetricsConfig(
    enabled: bool,
    interval: int,
    retentionPeriod: int,
    prometheusPort: int,
    enableHistogram: bool)

  datatype SecurityConfig = SecurityConfig(
    enableAuth: bool,
    authType: string,
    jwtSecret: string,
    jwtExpiry: int,
    enableAcl: bool,
    aclFile: string,
    enableTls: bool,
    tlsCertFile: string,
    tlsKeyFile: string,
    enableRateLimit: bool,
    rateLimitRpm: int,
    enableIpFilter: bool,
    allowedIps: seq<string>)

  datatype LoggingConfig = LoggingConfig(
    level: string,
    format: string,
    output: string,
    file: string,
    maxSize: int,
    maxFiles: int,
    compress: bool)

  datatype Config = Config(
    server: ServerConfig,
    cache: CacheConfig,
    cluster: ClusterConfig,
    storage: StorageConfig,
    metrics: MetricsConfig,
    security: SecurityConfig,
    logging: LoggingConfig)

  /** One constructor per check of Validate; the port and memory errors carry the offending value. */
  datatype ConfigError =
    | InvalidServerPort(port: int)
    | InvalidHttpPort(port: int)
    | MaxMemoryTooSmall(maxMemory: int)
    | ShardCountTooSmall
    | ClusterSeedsRequired
    | JwtSecretRequired
    | JwtExpiryTooShort

  predicate PortInRange(port: int)
  {
    1 <= port <= 65535
  }

  /** What an acceptable configuration is, stated as one conjunction. */
  predicate WellFormed(c: Config)
  {
    && PortInRange(c.server.port)
    && PortInRange(c.server.httpPort)
    && c.cache.maxMemory >= MiB
    && c.cache.shardCount >= 1
    && (c.cluster.enabled ==> |c.cluster.seeds| > 0)
    && (c.security.enableAuth ==> c.security.jwtSecret != "" && c.security.jwtExpiry >= Minute)
  }

  /** Every check that fails, each judged on its own, in the order Validate makes them. */
  function Failures(c: Config): seq<ConfigError>
  {
    (if PortInRange(c.server.port) then [] else [InvalidServerPort(c.server.port)])
    + (if PortInRange(c.server.httpPort) then [] else [InvalidHttpPort(c.server.httpPort)])
    + (if c.cache.maxMemory >= MiB then [] else [MaxMemoryTooSmall(c.cache.maxMemory)])
    + (if c.cache.shardCount >= 1 then [] else [ShardCountTooSmall])
    + (if c.cluster.enabled && |c.cluster.seeds| == 0 then [ClusterSeedsRequired] else [])
    + (if c.security.enableAuth && c.security.jwtSecret == "" then [JwtSecretRequired] else [])
    + (if c.security.enableAuth && c.security.jwtExpiry < Minute then [JwtExpiryTooShort] else [])
  }

  /**
   * Validate: the checks run in a fixed order and the first one that fails is
   * the error; no error (None) exactly when the configuration is well formed.
   */
  function Validate(c: Config): (r: Option<ConfigError>)
    ensures r.None? <==> WellFormed(c)
    ensures r.None? <==> Failures(c) == []
    ensures r.Some? ==> Failures(c) != [] && r.value == Failures(c)[0]
  {
    if c.server.port < 1 || c.server.port > 65535 then
      Some(InvalidServerPort(c.server.port))
    else if c.server.httpPort < 1 || c.server.httpPort > 65535 then
      Some(InvalidHttpPort(c.server.httpPort))
    else if c.cache.maxMemory < 1024 * 1024 then
      Some(MaxMemoryTooSmall(c.cache.maxMemory))
    else if c.cache.shardCount < 1 then
      Some(ShardCountTooSmall)
    else if c.cluster.enabled && |c.cluster.seeds| == 0 then
      Some(ClusterSeedsRequired)
    else if c.security.enableAuth && c.security.jwtSecret == "" then
      Some(JwtSecretRequired)
    else if c.security.enableAuth && c.security.jwtExpiry < Minute then
      Some(JwtExpiryTooShort)
    else
      None
  }

  /** DefaultConfig: the built-in configuration; it passes Validate. */
  function DefaultConfig(): (c: Config)
    ensures Validate(c) == None
  {
    Config(
      ServerConfig(
        host := "0.0.0.0",
        port := 6379,
        httpPort := 8080,
        readTimeout := 30 * Second,
        writeTimeout := 30 * Second,
        maxConnections := 10000,
        enableHttp := true,
        enableTls := false,
        tlsCertFile := "",
        tlsKeyFile := "",
        enableCors := true,
        corsOrigins := ["*"]),
      CacheConfig(
        maxMemory := 512 * 1024 * 1024,
        defaultTtl := 24 * Hour,
        cleanupInterval := 10 * Minute,
        evictionPolicy := "lru",
        enableCompression := true,
        compressionLevel := 6,
        shardCount := 16,
        enableMetrics := true),
      ClusterConfig(
        enabled := false,
        nodeId := "",
        seeds := [],
        port := 0,
        gossipInterval := 1 * Second,
        probeInterval := 5 * Second,
        probeTimeout := 3 * Second,
        suspicionMult := 5,
        reconnectInterval := 10 * Second,
        reconnectTimeout := 6 * Second),
      StorageConfig(
        enabled := false,
        kind := "aof",
        path := "./data",
        syncInterval := 1 * Second,
        maxFileSize := 1024 * 1024 * 1024,
        compression := true,
        encryption := false,
        encryptionKey := "",
        backupEnabled := false,
        backupInterval := 24 * Hour,
        backupRetention := 7),
      MetricsConfig(
        enabled := true,
        interval := 10 * Second,
        retentionPeriod := 7 * 24 * Hour,
        prometheusPort := 9090,
        enableHistogram := true),
      SecurityConfig(
        enableAuth := false,
        authType := "jwt",
        jwtSecret := "",
        jwtExpiry := 24 * Hour,
        enableAcl := false,
        aclFile := "",
        enableTls := false,
        tlsCertFile := "",
        tlsKeyFile := "",
        enableRateLimit := true,
        rateLimitRpm := 1000,
        enableIpFilter := false,
        allowedIps := []),
      LoggingConfig(
        level := "info",
        format := "json",
        output := "stdout",
        file := "",
        maxSize := 100 * 1024 * 1024,
        maxFiles := 5,
        compress := true))
  }

  // ---------------------------------------------------------------------
  // Boundaries and independence of the checks
  // ---------------------------------------------------------------------

  function WithPort(c: Config, port: int): Config
  {
    c.(server := c.server.(port := port))
  }

  function WithHttpPort(c: Config, port: int): Config
  {
    c.(server := c.server.(httpPort := port))
  }

  /** Ports 0 and 65536 are rejected and 1 and 65535 accepted, for the server port and the HTTP port alike. */
  lemma PortBoundaries(c: Config)
    ensures Validate(WithPort(c, 0)) == Some(InvalidServerPort(0))
    ensures Validate(WithPort(c, 65536)) == Some(InvalidServerPort(65536))
    ensures Validate(WithHttpPort(c, 0)).Some? && Validate(WithHttpPort(c, 65536)).Some?
    ensures PortInRange(c.server.port) ==>
              Validate(WithHttpPort(c, 0)) == Some(InvalidHttpPort(0))
              && Validate(WithHttpPort(c, 65536)) == Some(InvalidHttpPort(65536))
    ensures WellFormed(c) ==>
              && Validate(WithPort(c, 1)) == None && Validate(WithPort(c, 65535)) == None
              && Validate(WithHttpPort(c, 1)) == None && Validate(WithHttpPort(c, 65535)) == None
  {
  }

  /** 1 MiB of memory is the least accepted; a shard count of 0 is rejected. */
  lemma CacheBoundaries(c: Config)
    ensures WellFormed(c) ==> Validate(c.(cache := c.cache.(maxMemory := MiB))) == None
    ensures Validate(c.(cache := c.cache.(maxMemory := MiB - 1))).Some?
    ensures PortInRange(c.server.port) && PortInRange(c.server.httpPort) ==>
              Validate(c.(cache := c.cache.(maxMemory := MiB - 1))) == Some(MaxMemoryTooSmall(MiB - 1))
    ensures Validate(c.(cache := c.cache.(shardCount := 0))).Some?
  {
  }

  /** The seeds are looked at only when clustering is enabled. */
  lemma SeedsOnlyWhenClustering(c: Config, seeds: seq<string>)
    requires !c.cluster.enabled
    ensures Validate(c.(cluster := c.cluster.(seeds := seeds))) == Validate(c)
  {
  }

  /** The JWT secret and expiry are looked at only when authentication is enabled; one minute is long enough. */
  lemma JwtOnlyWhenAuth(c: Config, secret: string, expiry: int)
    ensures !c.security.enableAuth ==>
              Validate(c.(security := c.security.(jwtSecret := secret, jwtExpiry := expiry))) == Validate(c)
    ensures WellFormed(c) && c.security.enableAuth ==>
              Validate(c.(security := c.security.(jwtExpiry := Minute))) == None
    ensures WellFormed(c) && c.security.enableAuth ==>
              Validate(c.(security := c.security.(jwtExpiry := Minute - 1))) == Some(JwtExpiryTooShort)
  {
  }

  /** The first failing check decides: a bad server port is reported even when the memory is also too small. */
  lemma FirstFailureWins(c: Config)
    requires !PortInRange(c.server.port) && c.cache.maxMemory < MiB
    ensures Validate(c) == Some(InvalidServerPort(c.server.port))
    ensures MaxMemoryTooSmall(c.cache.maxMemory) in Failures(c)
  {
  }
}
