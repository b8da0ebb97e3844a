/**
  The identifiers that the modelled migrations mention.  A constructor stands for the SQL
  name.  Constraint names are unique per table, index names per schema.
 */
module Names {
  datatype Table =
    | Users | Workspaces | WorkspaceMembers | WorkspaceInvitations | WorkspaceSettings | BackupCodes
    | Projects | ProjectPreferences | SharedLinks | ProvisioningStatus | OnboardingStatus | Notifications
    | ByokSecrets | ApiUsage | Agents | Stories | Sprints | DeploymentApprovals | Templates
    | ChatMessages | AgentStatusUpdates | ConversationThreads
    | ChatRooms | ChatRoomMembers | ChatRoomInvitations | UserRoomRestrictions | ModerationLog | PinnedMessages

  /** Columns. */
  datatype Field =
    | Id | WorkspaceId | UserId | ProjectId | AgentId | OwnerUserId | CurrentWorkspaceId | InviterUserId
    | CreatedByUserId | CreatedBy | CreatedById | ByokKeyId | RoomId | InvitedById | InvitedUserId
    | ModeratorId | TargetUserId | TargetMessageId | MessageId | PinnedById | ConversationId | ChatMessageId
    | SprintId
    // chat
    | RoomName | Description | RoomType | IsPrivate | IsLocked | Settings | MemberCount | LastMessageAt
    | CreatedAt | UpdatedAt | MemberType | Role | JoinedAt | LastReadAt | IsMuted | MutedUntil
    | Status | Message | ExpiresAt | RespondedAt | RestrictionType | Reason | ModerationAction | Metadata | PinnedAt
    // conversation threads
    | Title | MessageCount | LastMessagePreview | IsArchived | ArchivedAt | SearchVector | MessageText
    // deployment approvals
    | DeploymentApprovalMode | Platform | Branch | CommitSha | Environment | StoryId | StoryTitle | Changes
    | TestResults | RequestedBy | ReviewedBy | RejectionReason | RequestedAt | ReviewedAt
    // sprints
    | SprintNumber | SprintName | Goal | StartDate | EndDate | Capacity | CompletedAt
    // templates
    | IsFeatured | FeaturedOrder | LastTestRunAt | TestStatus | PricingType | PriceCents

  datatype TypeName =
    | ChatRoomType | ChatRoomMemberRole | ChatRoomMemberType | InvitationStatus | RestrictionKind | ModerationActionKind
    | ApprovalMode | ApprovalStatus | SprintStatus

  datatype ConstraintName =
    | FK_4a7c584d | FK_4e834311 | FK_backup_codes_user | FK_70066ea8 | FK_450ec5d9 | FK_552b8a08
    | FK_workspace_settings_workspace | FK_c51a656a | FK_cf5df369 | FK_5e77cd15 | FK_af78b8fc | FK_9b4b555c
    | FK_shared_links_project | FK_shared_links_workspace | FK_shared_links_user
    | FK_6a491724 | FK_c7800cfb | FK_093c2bc5
    | FK_provisioning_status_project | FK_provisioning_status_workspace | FK_34676e0d | FK_4235aa15
    | FK_c0cf6efc | FK_7186de31
    | Notifications_workspace_id_fkey | Notifications_user_id_fkey | FK_ff8a9bf1 | FK_9a8a8246
    | FK_byok_secrets_created_by | FK_f0fc94dd
    | FK_api_usage_workspace | FK_api_usage_project | FK_api_usage_byok_key
    | FK_27cf0492 | FK_4e99f987 | FK_3a1d1c29
    // the part of the name that follows the table
    | PK | FK_workspace | FK_project | FK_agent | FK_user | FK_room | FK_message | FK_created_by | FK_moderator
    | FK_invited_by | FK_invited_user | FK_target_user | FK_target_message | FK_pinned_by | FK_conversation | FK_sprint
    | UQ_room_user | UQ_room_agent | UQ_room_user_type | UQ_room_message | CK_user_or_agent
    | CK_template_test_status | CK_template_pricing_type | CK_template_price_cents_range

  datatype IndexName =
    | ChatRooms_workspace_id | ChatRooms_workspace_type | ChatRooms_workspace_created | ChatRooms_project_id
    | ChatRoomMembers_room_id | ChatRoomMembers_user_id | ChatRoomMembers_agent_id
    | ChatRoomInvitations_user_status | ChatRoomInvitations_room_status
    | UserRoomRestrictions_room_id | UserRoomRestrictions_user_id
    | ModerationLog_room_created | PinnedMessages_room_pinned
    | ChatMessages_room_id | ChatMessages_room_created | ChatMessages_room_pagination
    | ConversationThreads_workspace_id | ConversationThreads_workspace_created_at
    | ConversationThreads_workspace_last_message | ConversationThreads_workspace_agent_last_message
    | ChatMessages_conversation_id | ChatMessages_workspace_conversation_created_at
    | ChatMessages_is_archived | ChatMessages_search_vector
    | DeploymentApprovals_project_status | DeploymentApprovals_workspace | DeploymentApprovals_requested_at
    | Sprints_project_number | Sprints_project_status | Stories_sprint
    | Template_featured | Template_test_status | Template_pricing_type
    | Users_current_workspace_id

  /** The table that a foreign-key column of this name references, whichever table it is in. */
  function Referenced(f: Field): Table {
    match f
    case WorkspaceId => Workspaces
    case CurrentWorkspaceId => Workspaces
    case ProjectId => Projects
    case AgentId => Agents
    case RoomId => ChatRooms
    case MessageId => ChatMessages
    case TargetMessageId => ChatMessages
    case ChatMessageId => ChatMessages
    case ConversationId => ConversationThreads
    case ByokKeyId => ByokSecrets
    case _ => Users
  }
}
